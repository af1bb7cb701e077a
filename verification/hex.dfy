/** Lowercase Base16 (RFC 4648 section 8) as produced by `bytesToHex` in
    the web client and by the hex crate's `encode` in the command-line
    client, and the digit values a decoder uses. */
module Hex {
  import opened Common

  /** The lowercase digit for `v`: `0`-`9`, then `a`-`f`. */
  function DigitChar(v: int): char
    requires 0 <= v < 16
  {
    if v < 10 then ('0' as int + v) as char else ('a' as int + v - 10) as char
  }

  predicate IsHexDigit(ch: char) {
    ('0' <= ch <= '9') || ('a' <= ch <= 'f') || ('A' <= ch <= 'F')
  }

  /** The base-16 value of a hex digit, either case. */
  function DigitValue(ch: char): (v: int)
    requires IsHexDigit(ch)
    ensures 0 <= v < 16
  {
    if '0' <= ch <= '9' then ch as int - '0' as int
    else if 'a' <= ch <= 'f' then ch as int - 'a' as int + 10
    else ch as int - 'A' as int + 10
  }

  lemma DigitValueOfDigitChar(v: int)
    requires 0 <= v < 16
    ensures IsHexDigit(DigitChar(v)) && DigitValue(DigitChar(v)) == v
    ensures !('A' <= DigitChar(v) <= 'F')
  {
  }

  /** Lowercase hex digits only. */
  predicate IsLowerHex(s: string) {
    forall i | 0 <= i < |s| :: IsHexDigit(s[i]) && !('A' <= s[i] <= 'F')
  }

  /** `Number.prototype.toString(16)` on a value in 0..255: one digit
      below 16, otherwise two, with no leading zero. */
  function ToRadix16(b: byte): (s: string)
    ensures |s| == if b < 16 then 1 else 2
    ensures s[0] == '0' ==> b == 0
    ensures IsLowerHex(s)
    ensures IsHexDigit(s[|s| - 1]) && DigitValue(s[|s| - 1]) == b as int % 16
    ensures |s| == 2 ==> IsHexDigit(s[0]) && DigitValue(s[0]) == b as int / 16
  {
    if b < 16 then
      DigitValueOfDigitChar(b as int);
      [DigitChar(b as int)]
    else
      DigitValueOfDigitChar(b as int / 16);
      DigitValueOfDigitChar(b as int % 16);
      [DigitChar(b as int / 16), DigitChar(b as int % 16)]
  }

  /** `String.prototype.padStart(2, '0')`. */
  function PadStart2(s: string): (r: string)
    ensures |r| == if |s| >= 2 then |s| else 2
    ensures r[|r| - |s|..] == s
    ensures forall i | 0 <= i < |r| - |s| :: r[i] == '0'
  {
    if |s| >= 2 then s else seq(2 - |s|, _ => '0') + s
  }

  /** One byte as two lowercase, zero-padded digits, high nibble first. */
  function ByteToHex(b: byte): (s: string)
    ensures s == [DigitChar(b as int / 16), DigitChar(b as int % 16)]
  {
    var t := ToRadix16(b);
    if b < 16 then
      assert t == [DigitChar(b as int % 16)] && DigitChar(b as int / 16) == '0';
      PadStart2(t)
    else
      assert t == [DigitChar(b as int / 16), DigitChar(b as int % 16)];
      PadStart2(t)
  }

  /** `bytesToHex`: `reduce` appends each byte's two digits in order. */
  function BytesToHex(bytes: Bytes): (s: string)
    ensures |s| == 2 * |bytes|
    decreases |bytes|
  {
    if |bytes| == 0 then "" else BytesToHex(bytes[..|bytes| - 1]) + ByteToHex(bytes[|bytes| - 1])
  }

  /** Appending a byte's digits leaves the earlier characters where they
      were. */
  lemma BytesToHexKeepsPrefix(bytes: Bytes, k: nat)
    requires k < 2 * (|bytes| - 1)
    ensures BytesToHex(bytes)[k] == BytesToHex(bytes[..|bytes| - 1])[k]
  {
  }

  /** The last byte's digits end the encoding. */
  lemma BytesToHexEndsWithLast(bytes: Bytes)
    requires |bytes| > 0
    ensures var b, n := bytes[|bytes| - 1], |bytes| - 1;
      BytesToHex(bytes)[2 * n] == DigitChar(b as int / 16) && BytesToHex(bytes)[2 * n + 1] == DigitChar(b as int % 16)
  {
  }

  /** Characters `2i` and `2i+1` of the encoding are byte `i`'s high and
      low digits. */
  lemma {:induction false} BytesToHexDigits(bytes: Bytes, i: nat)
    requires i < |bytes|
    ensures BytesToHex(bytes)[2 * i] == DigitChar(bytes[i] as int / 16)
    ensures BytesToHex(bytes)[2 * i + 1] == DigitChar(bytes[i] as int % 16)
    decreases |bytes|
  {
    var n := |bytes| - 1;
    if i < n {
      var init := bytes[..n];
      BytesToHexDigits(init, i);
      BytesToHexKeepsPrefix(bytes, 2 * i);
      BytesToHexKeepsPrefix(bytes, 2 * i + 1);
      assert init[i] == bytes[i];
    } else {
      assert i == n;
      BytesToHexEndsWithLast(bytes);
    }
  }

  /** The encoding uses only lowercase hex digits. */
  lemma {:induction false} BytesToHexIsLowercaseHex(bytes: Bytes)
    ensures IsLowerHex(BytesToHex(bytes))
    decreases |bytes|
  {
    if |bytes| > 0 {
      var init, b := bytes[..|bytes| - 1], bytes[|bytes| - 1];
      BytesToHexIsLowercaseHex(init);
      DigitValueOfDigitChar(b as int / 16);
      DigitValueOfDigitChar(b as int % 16);
      var s, t := BytesToHex(init), ByteToHex(b);
      assert BytesToHex(bytes) == s + t;
      assert forall i | |s| <= i < |s + t| :: (s + t)[i] == t[i - |s|];
    }
  }
}
