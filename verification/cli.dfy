/** The pure steps of the command-line client `src/main.rs`: reading the
    helper scripts' standard output, and the final decrypt-and-compare
    step. Child processes, the network and file I/O are left out; their
    results are the inputs here. */
module Cli {
  import opened Common
  import opened RustStr
  import Aead
  import Encryption

  datatype CliError =
    | EmptyLitEncryptOutput
    | EmptyTransactionId
    | EmptyKeyOutput
    | DecryptionFailed
    | DataMismatch

  /** The outcome of the last step: success, an `Err` returned from
      `main`, or a panic. */
  datatype StepOutcome = Verified | Failed(error: CliError) | Panicked

  /** What `encrypt_string.js` printed, trimmed; empty output is an error.
      The JSON it holds is parsed by serde, which is not modelled. */
  function LitEncryptOutput(stdout: string): (r: Result<string, CliError>)
    ensures r.Err? <==> Trim(stdout) == ""
    ensures r.Err? ==> r.error == EmptyLitEncryptOutput
    ensures r.Ok? ==> r.value != "" && !IsWhitespace(r.value[0]) && !IsWhitespace(r.value[|r.value| - 1])
    ensures r.Ok? ==> r.value == Trim(stdout)
  {
    var trimmed := Trim(stdout);
    if trimmed == "" then Err(EmptyLitEncryptOutput) else Ok(trimmed)
  }

  /** The upload script's transaction id: its output, trimmed; empty is an
      error. */
  function ArweaveTransactionId(stdout: string): (r: Result<string, CliError>)
    ensures r.Err? <==> Trim(stdout) == ""
    ensures r.Err? ==> r.error == EmptyTransactionId
    ensures r.Ok? ==> r.value == Trim(stdout)
  {
    var txId := Trim(stdout);
    if txId == "" then Err(EmptyTransactionId) else Ok(txId)
  }

  /** `lines().last().unwrap_or("")`. On text that does not end in a line
      break this is everything after the last `\n`. */
  function LastLineOrEmpty(s: string): (r: string)
    ensures forall i | 0 <= i < |r| :: r[i] != '\n'
    ensures s == [] ==> r == []
    ensures s != [] && s[|s| - 1] != '\n' ==> r == s[LineStart(s, |s|)..]
  {
    var r := match LastLine(s) case Some(line) => line case None => "";
    assert s != [] && s[|s| - 1] != '\n' ==> r == s[LineStart(s, |s|)..] by {
      if s != [] && s[|s| - 1] != '\n' {
        LineStartUnique(s, |s|, |s| - |r|);
      }
    }
    r
  }

  /** The key hex recovered from `decrypt_string.js`: the last line of the
      trimmed output, itself trimmed; an empty result is an error. */
  function RecoveredKeyHex(stdout: string): (r: Result<string, CliError>)
    ensures r.Ok? <==> Trim(stdout) != ""
    ensures r.Ok? ==> r.value != "" && !IsWhitespace(r.value[0]) && !IsWhitespace(r.value[|r.value| - 1])
    ensures r.Ok? ==> forall i | 0 <= i < |r.value| :: r.value[i] != '\n'
    ensures r.Err? ==> r.error == EmptyKeyOutput
  {
    var last := LastLineOrEmpty(Trim(stdout));
    TrimAddsNoChar(last, '\n');
    TrimmedLastLineIsEmptyOnlyForEmpty(Trim(stdout));
    var keyHex := Trim(last);
    if keyHex == "" then Err(EmptyKeyOutput) else Ok(keyHex)
  }

  /** Where the recovered key sits: it ends the trimmed output, and only
      whitespace stands between it and the line break before it. */
  lemma RecoveredKeyIsEndOfOutput(stdout: string)
    ensures var r, t := RecoveredKeyHex(stdout), Trim(stdout);
      r.Ok? ==>
        && |r.value| <= |t| && t[|t| - |r.value|..] == r.value
        && forall j | LineStart(t, |t| - |r.value|) <= j < |t| - |r.value| :: IsWhitespace(t[j])
  {
    KeyPlacement(Trim(stdout));
  }

  /** In text that is empty or ends in non-whitespace, a non-empty trimmed
      last line ends the text, after only whitespace on its line. */
  lemma KeyPlacement(t: string)
    requires t == [] || !IsWhitespace(t[|t| - 1])
    ensures var v := Trim(LastLineOrEmpty(t));
      v != [] ==>
        && |v| <= |t| && t[|t| - |v|..] == v
        && forall j | LineStart(t, |t| - |v|) <= j < |t| - |v| :: IsWhitespace(t[j])
  {
    if t != [] {
      KeyEndsText(t);
      OnlyWhitespaceBeforeKey(t);
    }
  }

  /** On text that is empty or ends in non-whitespace, the trimmed last
      line is empty only when the text is. */
  lemma TrimmedLastLineIsEmptyOnlyForEmpty(t: string)
    requires t == [] || !IsWhitespace(t[|t| - 1])
    ensures Trim(LastLineOrEmpty(t)) != [] <==> t != []
  {
    if t != [] {
      KeyEndsText(t);
    }
  }

  /** The trimmed last line of text ending in non-whitespace is non-empty
      and ends the text. */
  lemma KeyEndsText(t: string)
    requires t != [] && !IsWhitespace(t[|t| - 1])
    ensures var v := Trim(LastLineOrEmpty(t));
      v != [] && |v| <= |t| && t[|t| - |v|..] == v
  {
    assert IsWhitespace('\n');
    var last := LastLineOrEmpty(t);
    TrimmedTail(t, LineStart(t, |t|), last);
    var v := Trim(last);
    var tail := t[|t| - |v|..];
    assert tail == v;
  }

  /** On its line, only whitespace precedes the trimmed last line of text
      ending in non-whitespace. */
  lemma OnlyWhitespaceBeforeKey(t: string)
    requires t != [] && !IsWhitespace(t[|t| - 1])
    ensures var v := Trim(LastLineOrEmpty(t));
      |v| <= |t| && forall j | LineStart(t, |t| - |v|) <= j < |t| - |v| :: IsWhitespace(t[j])
  {
    assert IsWhitespace('\n');
    var last := LastLineOrEmpty(t);
    var m := LineStart(t, |t|);
    TrimmedGapInLine(t, m, last);
    WhitespaceFromLineStart(t, m, |t| - |Trim(last)|);
  }

  /** Trimming the tail `last == t[m..]`, which ends in non-whitespace, cut
      only whitespace from `m` on. */
  lemma TrimmedGapInLine(t: string, m: nat, last: string)
    requires m < |t| && last == t[m..] && !IsWhitespace(t[|t| - 1])
    ensures var v := Trim(last);
      |v| <= |last| && forall j | m <= j < |t| - |v| :: IsWhitespace(t[j])
  {
    assert last[|last| - 1] == t[|t| - 1];
    TrimmedGap(last);
    GapInLine(t, m, last, Trim(last));
  }

  /** `trim` on text ending in non-whitespace keeps something and cuts
      only whitespace from the front. */
  lemma TrimmedGap(s: string)
    requires s != [] && !IsWhitespace(s[|s| - 1])
    ensures var v := Trim(s);
      v != [] && |v| <= |s| && forall j | 0 <= j < |s| - |v| :: IsWhitespace(s[j])
  {
    TrimEndOfNonWhitespaceEnd(s);
    TrimStartOfNonWhitespaceEnd(s);
    assert Trim(s) == TrimStart(s);
    WhitespacePrefix(s, |s| - |Trim(s)|);
  }

  lemma WhitespacePrefix(s: string, k: nat)
    requires k <= |s| && AllWhitespace(s[..k])
    ensures forall j | 0 <= j < k :: IsWhitespace(s[j])
  {
    assert forall j | 0 <= j < k :: s[..k][j] == s[j];
  }

  /** Whitespace before `v` at the end of `last == t[m..]` is whitespace
      in `t` from `m` on. */
  lemma GapInLine(t: string, m: nat, last: string, v: string)
    requires m <= |t| && last == t[m..] && |v| <= |last|
    requires forall j | 0 <= j < |last| - |v| :: IsWhitespace(last[j])
    ensures forall j | m <= j < |t| - |v| :: IsWhitespace(t[j])
  {
    assert forall j | m <= j < |t| - |v| :: t[j] == last[j - m];
  }

  /** Whitespace from a line's start `m` to `p` is all that precedes `p`
      on its line. */
  lemma WhitespaceFromLineStart(t: string, m: nat, p: nat)
    requires m <= p <= |t|
    requires m == 0 || t[m - 1] == '\n'
    requires forall j | m <= j < |t| :: t[j] != '\n'
    requires forall j | m <= j < p :: IsWhitespace(t[j])
    ensures forall j | LineStart(t, p) <= j < p :: IsWhitespace(t[j])
  {
    LineStartUnique(t, p, m);
  }

  /** `trim` on `t[m..]`, which ends in non-whitespace, drops only a
      prefix, and what it keeps is non-empty and ends `t`. */
  lemma TrimmedTail(t: string, m: nat, last: string)
    requires m < |t| && last == t[m..] && !IsWhitespace(t[|t| - 1])
    ensures var v := Trim(last);
      v != [] && |v| <= |t| - m && t[|t| - |v|..] == v
  {
    assert last[|last| - 1] == t[|t| - 1];
    TrimEndOfNonWhitespaceEnd(last);
    TrimStartOfNonWhitespaceEnd(last);
    SuffixOfSuffix(t, m, |last| - |TrimStart(last)|);
  }

  /** Trimming the whole output keeps the key at its end, behind whatever
      is left of the earlier lines. */
  lemma TrimOfLogThenKey(logs: string, keyHex: string)
    requires keyHex != [] && forall i | 0 <= i < |keyHex| :: !IsWhitespace(keyHex[i])
    ensures var rest := TrimStart(logs + "\n");
      && Trim(logs + "\n" + keyHex + "\n") == rest + keyHex
      && (rest == [] || rest[|rest| - 1] == '\n')
  {
    var prefix := logs + "\n";
    assert prefix + keyHex + "\n" == (prefix + keyHex) + "\n";
    assert logs + "\n" + keyHex + "\n" == (prefix + keyHex) + "\n";
    TrimEndDropsAppendedWhitespace(prefix + keyHex, "\n");
    assert (prefix + keyHex)[|prefix + keyHex| - 1] == keyHex[|keyHex| - 1];
    TrimEndOfNonWhitespaceEnd(prefix + keyHex);
    TrimStartOfConcat(prefix, keyHex);
    var rest := TrimStart(prefix);
    if rest != [] {
      assert rest == prefix[|prefix| - |rest|..];
      assert rest[|rest| - 1] == prefix[|prefix| - 1];
    }
  }

  /** The last line of text that ends in a line break followed by a
      break-free key is the key. */
  lemma LastLineAfterBreak(rest: string, keyHex: string)
    requires keyHex != [] && forall i | 0 <= i < |keyHex| :: keyHex[i] != '\n'
    requires rest == [] || rest[|rest| - 1] == '\n'
    ensures LastLineOrEmpty(rest + keyHex) == keyHex
  {
    var t := rest + keyHex;
    LastIndexOfConcat(rest, keyHex, '\n');
    assert t[|t| - 1] == keyHex[|keyHex| - 1];
    assert t[|rest|..] == keyHex;
  }

  /** A line printed with `console.log` (text plus newline), after any
      amount of earlier log lines, is what the client reads back as the
      key, provided the text holds no whitespace. */
  lemma KeyIsReadFromLastPrintedLine(logs: string, keyHex: string)
    requires keyHex != [] && forall i | 0 <= i < |keyHex| :: !IsWhitespace(keyHex[i])
    ensures RecoveredKeyHex(logs + "\n" + keyHex + "\n") == Ok(keyHex)
  {
    TrimOfLogThenKey(logs, keyHex);
    assert forall i | 0 <= i < |keyHex| :: keyHex[i] != '\n' by {
      assert IsWhitespace('\n');
    }
    LastLineAfterBreak(TrimStart(logs + "\n"), keyHex);
    TrimStartOfNonWhitespaceStart(keyHex);
    TrimEndOfNonWhitespaceEnd(keyHex);
  }

  /** A single printed line whose ends are not whitespace is read back
      exactly, as the protected-key JSON and as the transaction id. */
  lemma PrintedLineIsReadBack(text: string)
    requires text != [] && !IsWhitespace(text[0]) && !IsWhitespace(text[|text| - 1])
    ensures LitEncryptOutput(text + "\n") == Ok(text)
    ensures ArweaveTransactionId(text + "\n") == Ok(text)
  {
    TrimEndDropsAppendedWhitespace(text, "\n");
    TrimEndOfNonWhitespaceEnd(text);
    TrimStartOfNonWhitespaceStart(text);
  }

  /** Step 6 of `main`: `Key::from_slice` panics unless the recovered key
      is 32 bytes and `Nonce::from_slice` unless the nonce is 12; a failed
      decryption is an error; the run succeeds only if the decrypted bytes
      equal the original file's bytes. */
  function DecryptAndVerify(c: Aead.Cipher, keyBytes: Bytes, ciphertext: Bytes, nonceBytes: Bytes,
                            original: Bytes): (r: StepOutcome)
    requires Aead.Valid(c)
    ensures r.Panicked? <==> |keyBytes| != Aead.KeySize || |nonceBytes| != Aead.NonceSize
    ensures r == Verified <==>
      && |keyBytes| == Aead.KeySize && |nonceBytes| == Aead.NonceSize
      && Encryption.EncryptData(c, keyBytes, original, nonceBytes) == Ok((ciphertext, nonceBytes))
    ensures r == Failed(DataMismatch) ==>
      Encryption.DecryptData(c, keyBytes, ciphertext, nonceBytes).Ok?
  {
    if |keyBytes| != Aead.KeySize || |nonceBytes| != Aead.NonceSize then Panicked
    else
      match Encryption.DecryptData(c, keyBytes, ciphertext, nonceBytes)
      case Err(_) => Failed(DecryptionFailed)
      case Ok(decrypted) => if original == decrypted then Verified else Failed(DataMismatch)
  }

  /** The client's round trip: the file encrypted in step 2, decrypted in
      step 6 with the same key and the stored nonce, passes the final
      byte comparison. */
  lemma EncryptThenVerifySucceeds(c: Aead.Cipher, key: Bytes, original: Bytes, drawn: Bytes)
    requires Aead.Valid(c) && |key| == Aead.KeySize && |drawn| == Aead.NonceSize
    requires |original| <= Aead.MaxPlaintext
    ensures var (ciphertext, nonce) := Encryption.EncryptData(c, key, original, drawn).value;
      DecryptAndVerify(c, key, ciphertext, nonce, original) == Verified
  {
  }
}
