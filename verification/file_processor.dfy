/** The browser client `merkeziyetsiz-ui/src/components/FileProcessor.tsx`:
    its byte helpers, the generated-key check, and the two handlers that
    move bytes through the guest's linear memory. React state, the Lit and
    Arweave services and the DOM are outside the model; what they hand the
    handlers (the fetched archive, the upload's transaction id, the
    allocator's answers) are parameters. */
module FileProcessor {
  import opened Common
  import Aead
  import Encryption
  import opened WasmBoundary

  /** `compareUint8Arrays`: element-wise comparison after a length check. */
  method CompareUint8Arrays(a1: Bytes, a2: Bytes) returns (equal: bool)
    ensures |a1| != |a2| ==> !equal
    ensures equal <==> a1 == a2
  {
    if |a1| != |a2| {
      return false;
    }
    var i := 0;
    while i < |a1|
      invariant 0 <= i <= |a1|
      invariant a1[..i] == a2[..i]
    {
      if a1[i] != a2[i] {
        return false;
      }
      i := i + 1;
    }
    assert a1 == a1[..i] && a2 == a2[..i];
    return true;
  }

  /** The check `handleGenerateAesKey` applies to what
      `generate_aes_key_wasm` returned: a `Uint8Array` of exactly 32 bytes
      becomes the key; anything else is rejected. */
  function AcceptGeneratedKey(v: JsValue): (key: Option<Bytes>)
    ensures key.Some? <==> v.JsBytes? && |v.bytes| == Aead.KeySize
    ensures key.Some? ==> key.value == v.bytes
  {
    match v
    case JsBytes(bytes) => if |bytes| == Aead.KeySize then Some(bytes) else None
    case _ => None
  }

  /** Every key the guest generates passes the client's check unchanged. */
  lemma GeneratedKeyIsAccepted(drawn: Bytes)
    requires |drawn| == Aead.KeySize
    ensures AcceptGeneratedKey(GenerateAesKeyWasm(drawn)) == Some(drawn)
  {
  }

  /** A guest buffer as the host tracks it: the pointer `wasm_alloc`
      returned and the length it asked for. */
  datatype Handle = Handle(addr: Addr, size: nat)

  /** The live buffers among `held` (empty ones share the dangling
      pointer and own nothing). */
  function Owned(held: seq<Handle>): set<Addr> {
    set k | 0 <= k < |held| && held[k].size > 0 :: held[k].addr
  }

  lemma OwnedConcat(a: seq<Handle>, b: seq<Handle>)
    ensures Owned(a + b) == Owned(a) + Owned(b)
  {
    var s := a + b;
    forall x | x in Owned(s) ensures x in Owned(a) + Owned(b) {
      var k :| 0 <= k < |s| && s[k].size > 0 && s[k].addr == x;
      if k < |a| { assert s[k] == a[k]; } else { assert s[k] == b[k - |a|]; }
    }
    forall x | x in Owned(a) + Owned(b) ensures x in Owned(s) {
      if x in Owned(a) {
        var k :| 0 <= k < |a| && a[k].size > 0 && a[k].addr == x;
        assert s[k] == a[k];
      } else {
        var k :| 0 <= k < |b| && b[k].size > 0 && b[k].addr == x;
        assert s[|a| + k] == b[k];
      }
    }
  }

  lemma OwnedSingle(x: Handle)
    ensures Owned([x]) == if x.size > 0 then {x.addr} else {}
  {
    if x.size > 0 {
      assert [x][0] == x;
    }
  }

  /** The host holds `held` on heap `h`, all acquired since `h0`: each
      non-empty handle is a live buffer of its size that was not live in
      `h0`, empty handles are the dangling pointer, no two non-empty
      handles share an address, and the buffers live in `h0` are still
      there unchanged and are the only others. */
  predicate Holds(h0: Heap, h: Heap, held: seq<Handle>) {
    && Valid(h0) && Valid(h)
    && (forall k | 0 <= k < |held| :: held[k].size == 0 ==> held[k].addr == Dangling)
    && (forall k | 0 <= k < |held| :: held[k].size > 0 ==>
          held[k].addr in h.live && h.live[held[k].addr].capacity == held[k].size)
    && (forall i, j | 0 <= i < j < |held| :: held[i].size > 0 && held[j].size > 0 ==> held[i].addr != held[j].addr)
    && h.live.Keys == h0.live.Keys + Owned(held)
    && h0.live.Keys !! Owned(held)
    && (forall a | a in h0.live :: h.live[a] == h0.live[a])
  }

  /** One more `wasm_alloc` that returns extends what the host holds. */
  lemma HoldsAfterAlloc(h0: Heap, h: Heap, held: seq<Handle>, size: nat, grant: bool)
    requires Holds(h0, h, held) && Alloc(h, size, grant).Returned?
    ensures Holds(h0, Alloc(h, size, grant).heap, held + [Handle(Alloc(h, size, grant).value, size)])
  {
    var r := Alloc(h, size, grant);
    if size == 0 {
      HoldsAfterEmpty(h0, h, held);
    } else {
      HoldsAfterFresh(h0, h, held, r.heap, r.value, size);
    }
  }

  /** An empty buffer (the dangling pointer) adds nothing to the heap. */
  lemma HoldsAfterEmpty(h0: Heap, h: Heap, held: seq<Handle>)
    requires Holds(h0, h, held)
    ensures Holds(h0, h, held + [Handle(Dangling, 0)])
  {
    var x := Handle(Dangling, 0);
    var held' := held + [x];
    OwnedConcat(held, [x]);
    OwnedSingle(x);
    assert forall k | 0 <= k < |held| :: held'[k] == held[k];
    assert held'[|held|] == x;
  }

  /** A fresh buffer, live in `h'` at an address `h` did not use, joins
      what the host holds. */
  lemma HoldsAfterFresh(h0: Heap, h: Heap, held: seq<Handle>, h': Heap, addr: Addr, size: nat)
    requires Holds(h0, h, held) && Valid(h') && size > 0
    requires addr !in h.live && h'.live == h.live[addr := Buffer(size, [])]
    ensures Holds(h0, h', held + [Handle(addr, size)])
  {
    var x := Handle(addr, size);
    var held' := held + [x];
    OwnedConcat(held, [x]);
    OwnedSingle(x);
    assert forall k | 0 <= k < |held| :: held'[k] == held[k];
    assert held'[|held|] == x;
    assert Owned(held') == Owned(held) + {addr};
    assert h'.live.Keys == h.live.Keys + {addr};
  }

  /** Copying a payload into one held buffer keeps what the host holds. */
  lemma HoldsAfterWrite(h0: Heap, h: Heap, held: seq<Handle>, k: nat, bytes: Bytes)
    requires Holds(h0, h, held) && k < |held| && |bytes| == held[k].size
    ensures Writable(h, held[k].addr, |bytes|)
    ensures Holds(h0, Write(h, held[k].addr, bytes), held)
  {
    if |bytes| > 0 {
      assert held[k].addr in Owned(held);
    }
  }

  /** Each payload is as long as the buffer it goes into. */
  predicate Fits(held: seq<Handle>, payloads: seq<Bytes>) {
    |payloads| == |held| && forall k | 0 <= k < |held| :: |payloads[k]| == held[k].size
  }

  /** The first `n` held buffers read back their payloads. */
  predicate Filled(h: Heap, held: seq<Handle>, payloads: seq<Bytes>, n: nat)
    requires n <= |held| && |payloads| == |held|
  {
    forall k | 0 <= k < n :: Readable(h, held[k].addr, held[k].size) && Read(h, held[k].addr, held[k].size) == payloads[k]
  }

  /** Copying payload `j` into held buffer `j` keeps the earlier copies
      readable and adds its own. */
  lemma WriteExtendsFilled(h0: Heap, h: Heap, held: seq<Handle>, payloads: seq<Bytes>, j: nat)
    requires Holds(h0, h, held) && j < |held| && Fits(held, payloads)
    requires Filled(h, held, payloads, j)
    ensures Writable(h, held[j].addr, |payloads[j]|)
    ensures Filled(Write(h, held[j].addr, payloads[j]), held, payloads, j + 1)
  {
    HoldsAfterWrite(h0, h, held, j, payloads[j]);
    var h' := Write(h, held[j].addr, payloads[j]);
    forall m | 0 <= m < j + 1
      ensures Readable(h', held[m].addr, held[m].size) && Read(h', held[m].addr, held[m].size) == payloads[m]
    {
      if m < j && held[m].size > 0 {
        assert held[m].addr != held[j].addr || held[j].size == 0;
      }
    }
  }

  /** Releasing the first held buffer leaves the host holding the rest. */
  lemma HoldsAfterRelease(h0: Heap, h: Heap, held: seq<Handle>)
    requires Holds(h0, h, held) && held != []
    ensures CanRelease(h, held[0].addr, held[0].size)
    ensures Holds(h0, Dealloc(h, held[0].addr, held[0].size), held[1..])
  {
    var rest := held[1..];
    OwnedUncons(held);
    var h' := Dealloc(h, held[0].addr, held[0].size);
    assert forall k | 0 <= k < |rest| :: rest[k] == held[k + 1];
    if held[0].size > 0 {
      assert held[0].addr !in Owned(rest);
      assert h'.live.Keys == h0.live.Keys + Owned(rest);
    }
  }

  lemma OwnedUncons(held: seq<Handle>)
    requires held != []
    ensures Owned(held) == (if held[0].size > 0 then {held[0].addr} else {}) + Owned(held[1..])
  {
    assert held == [held[0]] + held[1..];
    OwnedConcat([held[0]], held[1..]);
    OwnedSingle(held[0]);
  }

  /** Why `wasm_alloc(size)` traps when it does. */
  function AllocTrap(size: nat): TrapReason {
    if size > IsizeMax then CapacityOverflow else OutOfMemory
  }

  /** The handles obtained so far, the heap, and the trap that stopped the
      allocations, if any. */
  datatype Acquired = Acquired(heap: Heap, held: seq<Handle>, trap: Option<TrapReason>)

  /** What a run of allocations over `sizes` leaves: the host holds what
      it obtained since `h`; the `k`-th buffer has the `k`-th size and its
      allocation returned; and either every allocation returned, or the
      first one that did not ended the run with that size's trap. */
  predicate AcquiredBy(h: Heap, sizes: seq<nat>, grants: seq<bool>, r: Acquired)
    requires |grants| == |sizes|
  {
    && Holds(h, r.heap, r.held)
    && |r.held| <= |sizes|
    && (forall k | 0 <= k < |r.held| :: r.held[k].size == sizes[k] && AllocReturns(sizes[k], grants[k]))
    && (r.trap.None? <==> |r.held| == |sizes|)
    && (r.trap.Some? ==> r.trap.value == AllocTrap(sizes[|r.held|]) && !AllocReturns(sizes[|r.held|], grants[|r.held|]))
  }

  /** A run that stopped early stays stopped when one more size follows. */
  lemma AcquiredByStopped(h: Heap, sizes: seq<nat>, grants: seq<bool>, before: Acquired)
    requires |grants| == |sizes| && |sizes| > 0
    requires AcquiredBy(h, sizes[..|sizes| - 1], grants[..|sizes| - 1], before) && before.trap.Some?
    ensures AcquiredBy(h, sizes, grants, before)
  {
    var n := |sizes| - 1;
    assert forall k | 0 <= k < n :: sizes[..n][k] == sizes[k] && grants[..n][k] == grants[k];
  }

  /** A complete run extended by a trapped allocation stops with its
      trap. */
  lemma AcquiredByTrapped(h: Heap, sizes: seq<nat>, grants: seq<bool>, before: Acquired)
    requires |grants| == |sizes| && |sizes| > 0
    requires AcquiredBy(h, sizes[..|sizes| - 1], grants[..|sizes| - 1], before) && before.trap.None?
    requires Alloc(before.heap, sizes[|sizes| - 1], grants[|sizes| - 1]).Trapped?
    ensures AcquiredBy(h, sizes, grants,
              Acquired(before.heap, before.held, Some(Alloc(before.heap, sizes[|sizes| - 1], grants[|sizes| - 1]).reason)))
  {
    var n := |sizes| - 1;
    assert forall k | 0 <= k < n :: sizes[..n][k] == sizes[k] && grants[..n][k] == grants[k];
  }

  /** A complete run extended by a returned allocation holds one more
      buffer, of the new size, at the returned address. */
  lemma AcquiredByReturned(h: Heap, sizes: seq<nat>, grants: seq<bool>, before: Acquired)
    requires |grants| == |sizes| && |sizes| > 0
    requires AcquiredBy(h, sizes[..|sizes| - 1], grants[..|sizes| - 1], before) && before.trap.None?
    requires Alloc(before.heap, sizes[|sizes| - 1], grants[|sizes| - 1]).Returned?
    ensures var r := Alloc(before.heap, sizes[|sizes| - 1], grants[|sizes| - 1]);
      AcquiredBy(h, sizes, grants, Acquired(r.heap, before.held + [Handle(r.value, sizes[|sizes| - 1])], None))
  {
    var n := |sizes| - 1;
    assert forall k | 0 <= k < n :: sizes[..n][k] == sizes[k] && grants[..n][k] == grants[k];
    var x := Handle(Alloc(before.heap, sizes[n], grants[n]).value, sizes[n]);
    var held := before.held + [x];
    HoldsAfterAlloc(h, before.heap, before.held, sizes[n], grants[n]);
    assert forall k | 0 <= k < n :: held[k] == before.held[k];
    assert held[n] == x;
  }

  /** A handler's consecutive `wasm_alloc` calls, one per size, in order;
      the first trap ends them (it throws into the handler's `catch`).
      `grants` are the allocator's answers. */
  function AllocEach(h: Heap, sizes: seq<nat>, grants: seq<bool>): (r: Acquired)
    requires Valid(h) && |grants| == |sizes|
    ensures AcquiredBy(h, sizes, grants, r)
    decreases |sizes|
  {
    if sizes == [] then Acquired(h, [], None)
    else
      var n := |sizes| - 1;
      var before := AllocEach(h, sizes[..n], grants[..n]);
      if before.trap.Some? then
        AcquiredByStopped(h, sizes, grants, before);
        before
      else
        match Alloc(before.heap, sizes[n], grants[n])
        case Trapped(reason) =>
          AcquiredByTrapped(h, sizes, grants, before);
          Acquired(before.heap, before.held, Some(reason))
        case Returned(h', addr) =>
          AcquiredByReturned(h, sizes, grants, before);
          Acquired(h', before.held + [Handle(addr, sizes[n])], None)
  }

  /** The host's copies into the first `n` held buffers, in order. */
  function WriteEach(h0: Heap, h: Heap, held: seq<Handle>, payloads: seq<Bytes>, n: nat): (h': Heap)
    requires Holds(h0, h, held) && Fits(held, payloads) && n <= |held|
    ensures Holds(h0, h', held)
    decreases n
  {
    if n == 0 then h
    else
      var before := WriteEach(h0, h, held, payloads, n - 1);
      var k := n - 1;
      assert |payloads[k]| == held[k].size;
      HoldsAfterWrite(h0, before, held, k, payloads[k]);
      Write(before, held[k].addr, payloads[k])
  }

  /** After the copies, each of the first `n` held buffers reads back its
      payload: later copies never overwrite earlier ones. */
  lemma {:induction false} WriteEachFills(h0: Heap, h: Heap, held: seq<Handle>, payloads: seq<Bytes>, n: nat)
    requires Holds(h0, h, held) && Fits(held, payloads) && n <= |held|
    ensures Filled(WriteEach(h0, h, held, payloads, n), held, payloads, n)
    decreases n
  {
    if n > 0 {
      var j := n - 1;
      var before := WriteEach(h0, h, held, payloads, j);
      WriteEachFills(h0, h, held, payloads, j);
      assert Holds(h0, before, held) && Filled(before, held, payloads, j);
      WriteExtendsFilled(h0, before, held, payloads, j);
      assert WriteEach(h0, h, held, payloads, n) == Write(before, held[j].addr, payloads[j]);
      assert j + 1 == n;
    }
  }

  /** A handler's buffers: one `wasm_alloc` per payload, in order, up to
      the first trap; if every allocation returned, each payload is copied
      into its buffer. */
  function Stage(h: Heap, payloads: seq<Bytes>, grants: seq<bool>): (s: Acquired)
    requires Valid(h) && |grants| == |payloads|
    ensures Holds(h, s.heap, s.held)
    ensures |s.held| <= |payloads|
    ensures forall k | 0 <= k < |s.held| ::
      s.held[k].size == |payloads[k]| && AllocReturns(|payloads[k]|, grants[k])
    ensures s.trap.None? <==> |s.held| == |payloads|
    ensures s.trap.Some? ==>
      && s.trap.value == AllocTrap(|payloads[|s.held|]|)
      && !AllocReturns(|payloads[|s.held|]|, grants[|s.held|])
    ensures s.trap.None? ==> Filled(s.heap, s.held, payloads, |payloads|)
    ensures s.trap.None? <==> forall k | 0 <= k < |payloads| :: AllocReturns(|payloads[k]|, grants[k])
  {
    var sizes := seq(|payloads|, k requires 0 <= k < |payloads| => |payloads[k]|);
    var acquired := AllocEach(h, sizes, grants);
    if acquired.trap.Some? then acquired
    else
      WriteEachFills(h, acquired.heap, acquired.held, payloads, |payloads|);
      Acquired(WriteEach(h, acquired.heap, acquired.held, payloads, |payloads|), acquired.held, None)
  }

  /** How many buffers a handler holds after staging: at least one
      exactly when the first allocation returns, all of them exactly when
      every allocation returns. */
  lemma StagedCount(h: Heap, payloads: seq<Bytes>, grants: seq<bool>)
    requires Valid(h) && |grants| == |payloads| && |payloads| > 0
    ensures |Stage(h, payloads, grants).held| >= 1 <==> AllocReturns(|payloads[0]|, grants[0])
    ensures |Stage(h, payloads, grants).held| == |payloads| <==>
      forall k | 0 <= k < |payloads| :: AllocReturns(|payloads[k]|, grants[k])
  {
  }

  /** What `Holds` says about the handles themselves: none is null, no
      two non-empty ones share an address, and no non-empty one was live
      in `h0`. */
  lemma HeldHandles(h0: Heap, h: Heap, held: seq<Handle>)
    requires Holds(h0, h, held)
    ensures forall k | 0 <= k < |held| :: held[k].addr != 0
    ensures forall i, j | 0 <= i < j < |held| && held[i].size > 0 :: held[i].addr != held[j].addr
    ensures forall k | 0 <= k < |held| && held[k].size > 0 :: held[k].addr !in h0.live
  {
    forall k | 0 <= k < |held| && held[k].size > 0
      ensures held[k].addr !in h0.live
    {
      assert held[k].addr in Owned(held);
    }
    forall i, j | 0 <= i < j < |held| && held[i].size > 0
      ensures held[i].addr != held[j].addr
    {
      assert held[i].addr in h.live;
    }
  }

  /** A handler's `finally` block: `wasm_dealloc` on each held buffer with
      its length, in order. Afterwards exactly the buffers of `h0` are
      live. */
  function ReleaseEach(h0: Heap, h: Heap, held: seq<Handle>): (h': Heap)
    requires Holds(h0, h, held)
    ensures Valid(h')
    ensures h'.live == h0.live
    decreases |held|
  {
    if held == [] then
      assert h.live.Keys == h0.live.Keys;
      h
    else
      var rest := held[1..];
      HoldsAfterRelease(h0, h, held);
      var h1 := Dealloc(h, held[0].addr, held[0].size);
      ReleaseEach(h0, h1, rest)
  }

  /** Why a handler ended in its `catch` block. */
  datatype FlowError =
    | Unavailable          // the archive could not be fetched, parsed or unlocked
    | Trap(reason: TrapReason)
    | BoundaryError(text: string)
    | MalformedResult      // the boundary value did not have the expected shape
    | UploadFailed
    | NoTransactionId

  datatype EncryptOutcome =
    | Uploaded(txId: string, nonce: Bytes, ciphertext: Bytes)
    | EncryptFailed(error: FlowError)

  /** Whether the decrypted bytes were compared with the file selected for
      encryption, and how that came out. */
  datatype Verification = NotChecked | ContentMatches | ContentDiffers

  datatype DecryptOutcome =
    | Decrypted(plaintext: Bytes, verification: Verification)
    | DecryptFailed(error: FlowError)

  /** A handler run: the guest heap after its `finally` block, its outcome,
      and the buffers it acquired, in order. */
  datatype Flow<+O> = Flow(heap: Heap, outcome: O, acquired: seq<Handle>)

  /** The memory discipline of both handlers: the live buffers afterwards
      are exactly those before the handler ran, while every non-empty
      buffer it acquired was not among them, so each of those was released
      and nothing else was; no buffer is the null pointer, and distinct
      non-empty buffers have distinct addresses. */
  predicate Disciplined<O>(h: Heap, f: Flow<O>) {
    && f.heap.live == h.live
    && (forall k | 0 <= k < |f.acquired| && f.acquired[k].size > 0 :: f.acquired[k].addr !in h.live)
    && (forall k | 0 <= k < |f.acquired| :: f.acquired[k].addr != 0)
    && (forall i, j | 0 <= i < j < |f.acquired| && f.acquired[i].size > 0 ::
          f.acquired[i].addr != f.acquired[j].addr)
  }

  /** A handler's `finally` block once its `try` has an outcome: release
      every held buffer. The run keeps the memory discipline. */
  function Finish<O>(h: Heap, staged: Acquired, outcome: O): (r: Flow<O>)
    requires Holds(h, staged.heap, staged.held)
    ensures Valid(r.heap) && Disciplined(h, r)
    ensures r.outcome == outcome && r.acquired == staged.held
  {
    HeldHandles(h, staged.heap, staged.held);
    Flow(ReleaseEach(h, staged.heap, staged.held), outcome, staged.held)
  }

  /** The body of `handleEncryptAndUpload`'s `try` once both buffers are
      filled: call `encrypt_data_wasm`, throw on a string, upload the
      archive and throw unless a transaction id comes back. `outputGrant`
      is the allocator's answer to the guest's ciphertext vector. */
  function EncryptCall(c: Aead.Cipher, staged: Acquired, key: Bytes, content: Bytes, drawn: Bytes,
                       outputGrant: bool, txId: Option<string>): (o: EncryptOutcome)
    requires Aead.Valid(c) && Valid(staged.heap) && |drawn| == Aead.NonceSize
    requires |staged.held| == 2 && staged.held[0].size == |key| && staged.held[1].size == |content|
    requires Filled(staged.heap, staged.held, [key, content], 2)
    ensures o.Uploaded? <==>
      && |key| == Aead.KeySize && AllocReturns(|content| + Aead.TagSize, outputGrant)
      && txId.Some? && txId.value != ""
    ensures |key| != Aead.KeySize ==> o == EncryptFailed(Trap(KeyLength))
    ensures |key| == Aead.KeySize && !AllocReturns(|content| + Aead.TagSize, outputGrant) ==>
      o == EncryptFailed(Trap(if |content| + Aead.TagSize > IsizeMax then CapacityOverflow else OutOfMemory))
    ensures o.Uploaded? ==>
      && txId == Some(o.txId) && o.nonce == drawn
      && Encryption.DecryptData(c, key, o.ciphertext, o.nonce) == Ok(content)
    ensures o.EncryptFailed? ==> !o.error.BoundaryError?
  {
    var held := staged.held;
    assert Read(staged.heap, held[0].addr, |key|) == key && Read(staged.heap, held[1].addr, |content|) == content;
    match InvokeEncrypt(c, staged.heap, held[0].addr, |key|, held[1].addr, |content|, drawn, outputGrant)
    case Trapped(reason) => EncryptFailed(Trap(reason))
    case Returned(_, JsStr(text)) => EncryptFailed(BoundaryError(text))
    case Returned(_, JsEncrypted(nonce, ciphertext)) =>
      (match txId
       case Some(id) => if id != "" then Uploaded(id, nonce, ciphertext) else EncryptFailed(NoTransactionId)
       case None => EncryptFailed(UploadFailed))
    case Returned(_, JsBytes(_)) => EncryptFailed(MalformedResult)
  }

  /** `handleEncryptAndUpload`, from the first `wasm_alloc` to the
      `finally` block: allocate and fill the key and plaintext buffers,
      call `encrypt_data_wasm`, treat a string result as an error, upload
      the archive, and release both buffers whatever happened. `keyGrant`
      and `plaintextGrant` are the allocator's answers for the two
      buffers and `outputGrant` its answer for the guest's ciphertext
      vector, `drawn` the nonce the guest draws, and `txId` what the upload
      resolves to (`None` when it rejects). */
  function EncryptAndUpload(c: Aead.Cipher, h: Heap, key: Bytes, content: Bytes,
                            keyGrant: bool, plaintextGrant: bool, outputGrant: bool, drawn: Bytes,
                            txId: Option<string>): (r: Flow<EncryptOutcome>)
    requires Aead.Valid(c) && Valid(h) && |drawn| == Aead.NonceSize
    ensures Valid(r.heap) && Disciplined(h, r)
    ensures |r.acquired| <= 2
    ensures |r.acquired| >= 1 <==> AllocReturns(|key|, keyGrant)
    ensures |r.acquired| == 2 <==> AllocReturns(|key|, keyGrant) && AllocReturns(|content|, plaintextGrant)
    ensures |r.acquired| >= 1 ==> r.acquired[0].size == |key|
    ensures |r.acquired| == 2 ==> r.acquired[1].size == |content|
    ensures r.outcome.Uploaded? <==>
      && |r.acquired| == 2 && |key| == Aead.KeySize
      && AllocReturns(|content| + Aead.TagSize, outputGrant)
      && txId.Some? && txId.value != ""
    ensures |r.acquired| == 2 && |key| == Aead.KeySize && !AllocReturns(|content| + Aead.TagSize, outputGrant) ==>
      r.outcome == EncryptFailed(Trap(if |content| + Aead.TagSize > IsizeMax then CapacityOverflow else OutOfMemory))
    ensures r.outcome.Uploaded? ==>
      && r.outcome.txId == txId.value
      && r.outcome.nonce == drawn
      && Encryption.DecryptData(c, key, r.outcome.ciphertext, r.outcome.nonce) == Ok(content)
    ensures r.outcome.EncryptFailed? ==> !r.outcome.error.BoundaryError?
  {
    var payloads := [key, content];
    var staged := Stage(h, payloads, [keyGrant, plaintextGrant]);
    assert |staged.held| >= 1 ==> staged.held[0].size == |payloads[0]| == |key|;
    assert |staged.held| == 2 ==> staged.held[1].size == |payloads[1]| == |content|;
    var outcome :=
      if staged.trap.Some? then EncryptFailed(Trap(staged.trap.value))
      else EncryptCall(c, staged, key, content, drawn, outputGrant, txId);
    Finish(h, staged, outcome)
  }

  /** The comparison `handleDecryptArchive` makes when the file selected
      for encryption has the archived name. */
  function Verify(original: Option<Bytes>, sameName: bool, plaintext: Bytes): (v: Verification)
    ensures v == ContentMatches <==> sameName && original == Some(plaintext)
    ensures v == NotChecked <==> !sameName || original.None?
  {
    match original
    case Some(bytes) => if !sameName then NotChecked else if bytes == plaintext then ContentMatches else ContentDiffers
    case None => NotChecked
  }

  /** The rest of `handleDecryptArchive`'s `try` after the allocations: a
      trapped `wasm_alloc` throws; otherwise, with the three buffers
      filled, call `decrypt_data_wasm`, throw on a string, and compare the
      bytes with the selected file when its name is the archived one.
      `copyGrant` and `messageGrant` are the allocator's answers to the
      guest's ciphertext copy and error message. */
  function DecryptCall(c: Aead.Cipher, staged: Acquired, key: Bytes, ciphertext: Bytes, nonce: Bytes,
                       copyGrant: bool, messageGrant: bool,
                       original: Option<Bytes>, sameName: bool): (o: DecryptOutcome)
    requires Aead.Valid(c) && Valid(staged.heap)
    requires staged.trap.None? ==>
      && |staged.held| == 3 && staged.held[0].size == |key| && staged.held[1].size == |ciphertext|
      && staged.held[2].size == |nonce|
      && Filled(staged.heap, staged.held, [key, ciphertext, nonce], 3)
    ensures staged.trap.Some? ==> o == DecryptFailed(Trap(staged.trap.value))
    ensures |key| != Aead.KeySize || |nonce| != Aead.NonceSize ==> o.DecryptFailed? && o.error.Trap?
    ensures staged.trap.None? && |key| == Aead.KeySize && |nonce| == Aead.NonceSize ==>
      && (o.Decrypted? <==>
            AllocReturns(|ciphertext|, copyGrant) && Encryption.DecryptData(c, key, ciphertext, nonce).Ok?)
      && (o.DecryptFailed? ==>
            o.error == if AllocReturns(|ciphertext|, copyGrant) && messageGrant then BoundaryError(DecryptErrorText)
                       else Trap(OutOfMemory))
    ensures o.Decrypted? ==>
      && staged.trap.None? && |key| == Aead.KeySize && |nonce| == Aead.NonceSize
      && Encryption.EncryptData(c, key, o.plaintext, nonce) == Ok((ciphertext, nonce))
      && o.verification == Verify(original, sameName, o.plaintext)
  {
    if staged.trap.Some? then DecryptFailed(Trap(staged.trap.value))
    else
      var held := staged.held;
      assert Read(staged.heap, held[0].addr, |key|) == key;
      assert Read(staged.heap, held[1].addr, |ciphertext|) == ciphertext;
      assert Read(staged.heap, held[2].addr, |nonce|) == nonce;
      match InvokeDecrypt(c, staged.heap, held[0].addr, |key|, held[1].addr, |ciphertext|, held[2].addr, |nonce|,
                          copyGrant, messageGrant)
      case Trapped(reason) => DecryptFailed(Trap(reason))
      case Returned(_, JsStr(text)) => DecryptFailed(BoundaryError(text))
      case Returned(_, JsBytes(plaintext)) => Decrypted(plaintext, Verify(original, sameName, plaintext))
      case Returned(_, JsEncrypted(_, _)) => DecryptFailed(MalformedResult)
  }

  /** `handleDecryptArchive` once the archive is unlocked: the three
      buffers are acquired, filled, passed to `decrypt_data_wasm`, and
      released whatever happened; a string result is an error. The grants
      are the allocator's answers: three for the buffers, then
      `copyGrant` and `messageGrant` for the guest's own ciphertext copy
      and error message. `original` and `sameName` are the file selected
      for encryption and whether its name is the archived one. */
  function DecryptUnlocked(c: Aead.Cipher, h: Heap, key: Bytes, ciphertext: Bytes, nonce: Bytes,
                           keyGrant: bool, ciphertextGrant: bool, nonceGrant: bool,
                           copyGrant: bool, messageGrant: bool,
                           original: Option<Bytes>, sameName: bool): (r: Flow<DecryptOutcome>)
    requires Aead.Valid(c) && Valid(h)
    ensures Valid(r.heap) && Disciplined(h, r)
    ensures |r.acquired| <= 3
    ensures r.acquired == Stage(h, [key, ciphertext, nonce], [keyGrant, ciphertextGrant, nonceGrant]).held
    ensures |r.acquired| >= 1 ==> r.acquired[0].size == |key|
    ensures |r.acquired| >= 2 ==> r.acquired[1].size == |ciphertext|
    ensures |r.acquired| == 3 ==> r.acquired[2].size == |nonce|
    ensures r.outcome.Decrypted? ==>
      && |r.acquired| == 3 && |key| == Aead.KeySize && |nonce| == Aead.NonceSize
      && Encryption.EncryptData(c, key, r.outcome.plaintext, nonce) == Ok((ciphertext, nonce))
      && r.outcome.verification == Verify(original, sameName, r.outcome.plaintext)
    ensures |r.acquired| < 3 ==> r.outcome.DecryptFailed? && r.outcome.error.Trap?
    ensures |r.acquired| == 3 ==>
      && (|key| != Aead.KeySize || |nonce| != Aead.NonceSize ==> r.outcome.DecryptFailed? && r.outcome.error.Trap?)
      && (|key| == Aead.KeySize && |nonce| == Aead.NonceSize ==>
            (r.outcome.Decrypted? <==>
               AllocReturns(|ciphertext|, copyGrant) && Encryption.DecryptData(c, key, ciphertext, nonce).Ok?))
      && (|key| == Aead.KeySize && |nonce| == Aead.NonceSize && r.outcome.DecryptFailed? ==>
            r.outcome.error == if AllocReturns(|ciphertext|, copyGrant) && messageGrant
                               then BoundaryError(DecryptErrorText) else Trap(OutOfMemory))
  {
    var payloads := [key, ciphertext, nonce];
    var staged := Stage(h, payloads, [keyGrant, ciphertextGrant, nonceGrant]);
    assert |staged.held| >= 1 ==> staged.held[0].size == |payloads[0]| == |key|;
    assert |staged.held| >= 2 ==> staged.held[1].size == |payloads[1]| == |ciphertext|;
    assert |staged.held| == 3 ==> staged.held[2].size == |payloads[2]| == |nonce|;
    Finish(h, staged, DecryptCall(c, staged, key, ciphertext, nonce, copyGrant, messageGrant, original, sameName))
  }

  /** The unlocked run holds its key buffer exactly when that allocation
      returns, and all three buffers exactly when every allocation does. */
  lemma DecryptUnlockedCount(c: Aead.Cipher, h: Heap, key: Bytes, ciphertext: Bytes, nonce: Bytes,
                             keyGrant: bool, ciphertextGrant: bool, nonceGrant: bool,
                             copyGrant: bool, messageGrant: bool,
                             original: Option<Bytes>, sameName: bool)
    requires Aead.Valid(c) && Valid(h)
    ensures var r := DecryptUnlocked(c, h, key, ciphertext, nonce, keyGrant, ciphertextGrant, nonceGrant,
                                     copyGrant, messageGrant, original, sameName);
      && (|r.acquired| >= 1 <==> AllocReturns(|key|, keyGrant))
      && (|r.acquired| == 3 <==>
            AllocReturns(|key|, keyGrant) && AllocReturns(|ciphertext|, ciphertextGrant) && AllocReturns(|nonce|, nonceGrant))
  {
    var payloads, grants := [key, ciphertext, nonce], [keyGrant, ciphertextGrant, nonceGrant];
    StagedCount(h, payloads, grants);
    assert payloads[0] == key && payloads[1] == ciphertext && payloads[2] == nonce;
    assert grants[0] == keyGrant && grants[1] == ciphertextGrant && grants[2] == nonceGrant;
    assert (forall k | 0 <= k < 3 :: AllocReturns(|payloads[k]|, grants[k])) <==>
      AllocReturns(|key|, keyGrant) && AllocReturns(|ciphertext|, ciphertextGrant) && AllocReturns(|nonce|, nonceGrant);
  }

  /** `handleDecryptArchive`, from the fetched archive to the `finally`
      block. `archive` is the unlocked key with the decoded ciphertext and
      nonce, or `None` when fetching, parsing or unlocking failed (no
      buffer is acquired then). The grants are those of `DecryptUnlocked`. */
  function DecryptArchive(c: Aead.Cipher, h: Heap, archive: Option<(Bytes, Bytes, Bytes)>,
                          keyGrant: bool, ciphertextGrant: bool, nonceGrant: bool,
                          copyGrant: bool, messageGrant: bool,
                          original: Option<Bytes>, sameName: bool): (r: Flow<DecryptOutcome>)
    requires Aead.Valid(c) && Valid(h)
    ensures Valid(r.heap) && Disciplined(h, r)
    ensures |r.acquired| <= 3
    ensures archive.None? ==> r.acquired == [] && r.outcome == DecryptFailed(Unavailable)
    ensures archive.Some? ==>
      var (key, ciphertext, nonce) := archive.value;
      (|r.acquired| == 3 <==>
         AllocReturns(|key|, keyGrant) && AllocReturns(|ciphertext|, ciphertextGrant) && AllocReturns(|nonce|, nonceGrant))
    ensures archive.Some? && |r.acquired| >= 1 ==> r.acquired[0].size == |archive.value.0|
    ensures |r.acquired| >= 2 ==> r.acquired[1].size == |archive.value.1|
    ensures |r.acquired| == 3 ==> r.acquired[2].size == |archive.value.2|
    ensures r.outcome.Decrypted? ==>
      var (key, ciphertext, nonce) := archive.value;
      && |r.acquired| == 3 && |key| == Aead.KeySize && |nonce| == Aead.NonceSize
      && Encryption.EncryptData(c, key, r.outcome.plaintext, nonce) == Ok((ciphertext, nonce))
      && r.outcome.verification == Verify(original, sameName, r.outcome.plaintext)
    ensures archive.Some? && |r.acquired| == 3 ==>
      var (key, ciphertext, nonce) := archive.value;
      && (|key| != Aead.KeySize || |nonce| != Aead.NonceSize ==> r.outcome.DecryptFailed? && r.outcome.error.Trap?)
      && (|key| == Aead.KeySize && |nonce| == Aead.NonceSize ==>
            (r.outcome.Decrypted? <==>
               AllocReturns(|ciphertext|, copyGrant) && Encryption.DecryptData(c, key, ciphertext, nonce).Ok?))
      && (|key| == Aead.KeySize && |nonce| == Aead.NonceSize && r.outcome.DecryptFailed? ==>
            r.outcome.error == if AllocReturns(|ciphertext|, copyGrant) && messageGrant
                               then BoundaryError(DecryptErrorText) else Trap(OutOfMemory))
  {
    match archive
    case None => Flow(h, DecryptFailed(Unavailable), [])
    case Some((key, ciphertext, nonce)) =>
      DecryptUnlockedCount(c, h, key, ciphertext, nonce, keyGrant, ciphertextGrant, nonceGrant,
                           copyGrant, messageGrant, original, sameName);
      DecryptUnlocked(c, h, key, ciphertext, nonce, keyGrant, ciphertextGrant, nonceGrant,
                      copyGrant, messageGrant, original, sameName)
  }

  /** The client's round trip: a file encrypted and uploaded by
      `handleEncryptAndUpload`, fetched back with the same key, decrypts
      to its content, and the comparison with the still-selected file
      reports a match. */
  lemma UploadThenDecrypt(c: Aead.Cipher, h: Heap, key: Bytes, content: Bytes, drawn: Bytes,
                          txId: string, h': Heap)
    requires Aead.Valid(c) && Valid(h) && Valid(h') && |drawn| == Aead.NonceSize
    requires |key| == Aead.KeySize && |content| + Aead.TagSize <= IsizeMax && txId != ""
    ensures var sent := EncryptAndUpload(c, h, key, content, true, true, true, drawn, Some(txId));
      && sent.outcome.Uploaded?
      && DecryptArchive(c, h', Some((key, sent.outcome.ciphertext, sent.outcome.nonce)), true, true, true,
                        true, true, Some(content), true).outcome
         == Decrypted(content, ContentMatches)
  {
    var sent := EncryptAndUpload(c, h, key, content, true, true, true, drawn, Some(txId));
    var ciphertext, nonce := sent.outcome.ciphertext, sent.outcome.nonce;
    assert Encryption.DecryptData(c, key, ciphertext, nonce) == Ok(content);
    assert Encryption.EncryptData(c, key, content, nonce) == Ok((ciphertext, nonce));
    assert |ciphertext| == |content| + Aead.TagSize && |nonce| == Aead.NonceSize;
    assert AllocReturns(|key|, true) && AllocReturns(|ciphertext|, true) && AllocReturns(|nonce|, true);
    var got := DecryptArchive(c, h', Some((key, ciphertext, nonce)), true, true, true, true, true, Some(content), true);
    assert |got.acquired| == 3 && got.outcome.Decrypted?;
    assert Aead.Decrypt(c, key, nonce, ciphertext) == Ok(got.outcome.plaintext);
  }
}
