/** The key-protection script `key_manager_lit/encrypt_string.js`: its
    hex decoder `hexToUint8Array`, and the order of checks in `main`.

    JS strings are sequences of UTF-16 code units; here each `char` stands
    for one code unit. The Lit network calls are oracles. */
module EncryptString {
  import opened Common
  import Hex

  const OddLengthError: string := "Invalid hexString: Must be an even number of characters"

  /** ECMAScript StrWhiteSpaceChar: WhiteSpace and LineTerminator, which
      `parseInt` skips before the number. */
  predicate IsJsWhitespace(ch: char)
    ensures IsJsWhitespace(ch) ==> !Hex.IsHexDigit(ch) && ch != '-' && ch != '+'
  {
    || ch == '\t' || ch == '\U{B}' || ch == '\U{C}' || ch == ' ' || ch == '\U{A0}' || ch == '\U{FEFF}'
    || ch == '\U{1680}' || ('\U{2000}' <= ch <= '\U{200A}') || ch == '\U{202F}' || ch == '\U{205F}'
    || ch == '\U{3000}' || ch == '\n' || ch == '\r' || ch == '\U{2028}' || ch == '\U{2029}'
  }

  function TrimStartJs(s: string): (r: string)
    ensures |r| <= |s| && r == s[|s| - |r|..]
    ensures r == [] || !IsJsWhitespace(r[0])
  {
    if |s| > 0 && IsJsWhitespace(s[0]) then TrimStartJs(s[1..]) else s
  }

  /** The longest prefix made of hex digits. */
  function LeadingHexDigits(s: string): (r: string)
    ensures |r| <= |s| && r == s[..|r|]
    ensures forall i | 0 <= i < |r| :: Hex.IsHexDigit(r[i])
  {
    if |s| > 0 && Hex.IsHexDigit(s[0]) then [s[0]] + LeadingHexDigits(s[1..]) else ""
  }

  /** 16 to the power `n`. */
  function Pow16(n: nat): (p: nat)
    ensures p >= 1
  {
    if n == 0 then 1 else 16 * Pow16(n - 1)
  }

  lemma {:induction false} Pow16Monotone(m: nat, n: nat)
    requires m <= n
    ensures Pow16(m) <= Pow16(n)
    decreases n
  {
    if m < n {
      Pow16Monotone(m, n - 1);
    }
  }

  /** The base-16 value of a string of hex digits, most significant first;
      `n` digits hold a value below 16^n. */
  function HexValue(digits: string): (v: nat)
    requires forall i | 0 <= i < |digits| :: Hex.IsHexDigit(digits[i])
    ensures v < Pow16(|digits|)
    ensures |digits| == 1 ==> v == Hex.DigitValue(digits[0])
  {
    if |digits| == 0 then 0
    else HexValue(digits[..|digits| - 1]) * 16 + Hex.DigitValue(digits[|digits| - 1])
  }

  /** An optional sign: `-` negates (`true`), `+` is dropped. */
  function StripSign(t: string): (r: (bool, string))
    ensures r.0 <==> t != [] && t[0] == '-'
    ensures |r.1| <= |t| && r.1 == t[|t| - |r.1|..]
    ensures |r.1| < |t| <==> t != [] && (t[0] == '-' || t[0] == '+')
    ensures |t| - |r.1| <= 1
  {
    if |t| > 0 && t[0] == '-' then (true, t[1..])
    else if |t| > 0 && t[0] == '+' then (false, t[1..])
    else (false, t)
  }

  /** With radix 16, a leading `0x` or `0X` is dropped. */
  function StripHexPrefix(u: string): (r: string)
    ensures |r| <= |u| && r == u[|u| - |r|..]
    ensures |r| < |u| <==> |u| >= 2 && u[0] == '0' && (u[1] == 'x' || u[1] == 'X')
    ensures |r| < |u| ==> |r| == |u| - 2
  {
    if |u| >= 2 && u[0] == '0' && (u[1] == 'x' || u[1] == 'X') then u[2..] else u
  }

  /** `parseInt(s, 16)`: skip whitespace, take a sign, drop a `0x` prefix,
      then read as many hex digits as there are. `None` is `NaN`. */
  function ParseIntHex(s: string): (r: Option<int>)
    ensures r.Some? ==> r.value < Pow16(|s|) && -r.value < Pow16(|s|)
  {
    var (negative, u) := StripSign(TrimStartJs(s));
    var digits := LeadingHexDigits(StripHexPrefix(u));
    Pow16Monotone(|digits|, |s|);
    if |digits| == 0 then None
    else if negative then Some(0 - HexValue(digits))
    else Some(HexValue(digits))
  }

  /** Text that starts with a hex digit, other than a `0x` prefix, is a
      number: `parseInt` yields a non-negative value, never `NaN`. */
  lemma LeadingDigitParses(s: string)
    requires s != [] && Hex.IsHexDigit(s[0])
    requires !(|s| >= 2 && s[0] == '0' && (s[1] == 'x' || s[1] == 'X'))
    ensures ParseIntHex(s).Some? && ParseIntHex(s).value >= 0
  {
    assert TrimStartJs(s) == s;
    assert StripSign(s) == (false, s);
    assert StripHexPrefix(s) == s;
    assert LeadingHexDigits(s) != [];
  }

  /** Storing a number into a `Uint8Array` element: `NaN` becomes 0, any
      other integer is taken modulo 256. */
  function ToUint8(v: Option<int>): (b: byte)
    ensures v.None? ==> b == 0
    ensures v.Some? && 0 <= v.value < 256 ==> b as int == v.value
    ensures v.Some? ==> (v.value - b as int) % 256 == 0
  {
    match v
    case None => 0
    case Some(n) => (n % 256) as byte
  }

  /** `hexToUint8Array`: an odd length throws; otherwise element `i` is
      `parseInt` of characters `2i` and `2i+1`. */
  function HexToUint8Array(hexString: string): (r: Result<Bytes, string>)
    ensures r.Err? <==> |hexString| % 2 != 0
    ensures r.Err? ==> r.error == OddLengthError
    ensures r.Ok? ==> |r.value| == |hexString| / 2
  {
    if |hexString| % 2 != 0 then Err(OddLengthError)
    else Ok(seq(|hexString| / 2, i requires 0 <= i < |hexString| / 2 => DecodePair(hexString, i)))
  }

  /** Element `i` of the decoded array: on two hex digits, their base-16
      value, high digit first. */
  function DecodePair(hexString: string, i: nat): (b: byte)
    requires 2 * i + 2 <= |hexString|
    ensures Hex.IsHexDigit(hexString[2 * i]) && Hex.IsHexDigit(hexString[2 * i + 1]) ==>
      b as int == 16 * Hex.DigitValue(hexString[2 * i]) + Hex.DigitValue(hexString[2 * i + 1])
  {
    var pair := hexString[2 * i..2 * i + 2];
    assert pair[0] == hexString[2 * i] && pair[1] == hexString[2 * i + 1];
    assert Hex.IsHexDigit(pair[0]) && Hex.IsHexDigit(pair[1]) ==>
      && ParseIntHex(pair).Some? && 0 <= ParseIntHex(pair).value < 256
      && ParseIntHex(pair).value == 16 * Hex.DigitValue(pair[0]) + Hex.DigitValue(pair[1]) by {
      if Hex.IsHexDigit(pair[0]) && Hex.IsHexDigit(pair[1]) {
        ParsePairOfDigits(pair);
      }
    }
    ToUint8(ParseIntHex(pair))
  }

  predicate IsHexString(s: string) {
    forall i | 0 <= i < |s| :: Hex.IsHexDigit(s[i])
  }

  lemma HexDigitIsNotWhitespace(ch: char)
    requires Hex.IsHexDigit(ch)
    ensures !IsJsWhitespace(ch) && ch != '-' && ch != '+' && ch != 'x' && ch != 'X'
  {
  }

  /** Two hex digits parse to their base-16 value. */
  lemma ParsePairOfDigits(s: string)
    requires |s| == 2 && Hex.IsHexDigit(s[0]) && Hex.IsHexDigit(s[1])
    ensures ParseIntHex(s) == Some(16 * Hex.DigitValue(s[0]) + Hex.DigitValue(s[1]))
  {
    HexDigitIsNotWhitespace(s[0]);
    HexDigitIsNotWhitespace(s[1]);
    assert TrimStartJs(s) == s;
    assert StripSign(s) == (false, s);
    assert StripHexPrefix(s) == s;
    assert LeadingHexDigits(s[1..][1..]) == [];
    assert LeadingHexDigits(s[1..]) == s[1..];
    assert LeadingHexDigits(s) == s;
    assert s[..1][..0] == [];
    assert HexValue(s[..1]) == Hex.DigitValue(s[0]);
  }

  /** On valid hex input each output byte is the value of its two digits,
      high digit first. */
  lemma DecodesDigitPairs(hexString: string)
    requires |hexString| % 2 == 0 && IsHexString(hexString)
    ensures HexToUint8Array(hexString).Ok?
    ensures forall i | 0 <= i < |hexString| / 2 ::
      HexToUint8Array(hexString).value[i] as int
      == 16 * Hex.DigitValue(hexString[2 * i]) + Hex.DigitValue(hexString[2 * i + 1])
  {
    var r := HexToUint8Array(hexString).value;
    forall i | 0 <= i < |hexString| / 2
      ensures r[i] as int == 16 * Hex.DigitValue(hexString[2 * i]) + Hex.DigitValue(hexString[2 * i + 1])
    {
      assert r[i] == DecodePair(hexString, i);
    }
  }

  /** Each pair of encoded digits decodes back to its byte. */
  lemma DecodesEncodedPair(bytes: Bytes, i: nat)
    requires i < |bytes|
    ensures DecodePair(Hex.BytesToHex(bytes), i) == bytes[i]
  {
    var s := Hex.BytesToHex(bytes);
    var hi, lo := bytes[i] as int / 16, bytes[i] as int % 16;
    Hex.BytesToHexDigits(bytes, i);
    Hex.DigitValueOfDigitChar(hi);
    Hex.DigitValueOfDigitChar(lo);
    assert Hex.DigitValue(s[2 * i]) == hi && Hex.DigitValue(s[2 * i + 1]) == lo;
  }

  /** Decoding inverts the web client's and the hex crate's encoding: for
      any bytes `b`, `hexToUint8Array(bytesToHex(b)) == b`. */
  lemma HexRoundTrip(bytes: Bytes)
    ensures HexToUint8Array(Hex.BytesToHex(bytes)) == Ok(bytes)
  {
    var s := Hex.BytesToHex(bytes);
    assert |s| % 2 == 0 && |s| / 2 == |bytes|;
    var r := HexToUint8Array(s).value;
    forall i | 0 <= i < |bytes|
      ensures r[i] == bytes[i]
    {
      assert r[i] == DecodePair(s, i);
      DecodesEncodedPair(bytes, i);
    }
    assert r == bytes;
  }

  /** The empty string decodes to the empty array. */
  lemma EmptyDecodesToEmpty()
    ensures HexToUint8Array("") == Ok([])
  {
  }

  /** The decoder checks only the length: a pair whose first character is
      not a digit, a sign or whitespace is `NaN` and becomes 0 instead of
      an error. */
  lemma NonDigitPairBecomesZero(s: string)
    requires |s| == 2 && !Hex.IsHexDigit(s[0]) && !IsJsWhitespace(s[0]) && s[0] != '-' && s[0] != '+'
    ensures ParseIntHex(s) == None
    ensures ToUint8(ParseIntHex(s)) == 0
  {
    assert TrimStartJs(s) == s;
    assert StripSign(s) == (false, s);
    assert StripHexPrefix(s) == s;
  }

  /** Likewise a digit followed by a non-digit is read as that one digit. */
  lemma TrailingNonDigitIsIgnored(s: string)
    requires |s| == 2 && Hex.IsHexDigit(s[0]) && !Hex.IsHexDigit(s[1])
    requires !(s[0] == '0' && (s[1] == 'x' || s[1] == 'X'))
    ensures ParseIntHex(s) == Some(Hex.DigitValue(s[0]))
  {
    HexDigitIsNotWhitespace(s[0]);
    assert TrimStartJs(s) == s;
    assert StripSign(s) == (false, s);
    assert StripHexPrefix(s) == s;
    assert LeadingHexDigits(s[1..]) == [];
    assert LeadingHexDigits(s) == s[..1];
    assert s[..1][..0] == [];
    assert HexValue(s[..1]) == Hex.DigitValue(s[0]);
  }

  /** What `litClient.encrypt` resolves to; a field that is absent or the
      empty string is falsy. */
  datatype LitEncryptResult = LitEncryptResult(ciphertext: Option<string>, dataToEncryptHash: Option<string>)

  /** How the Lit steps before encryption went. */
  datatype LitSession = ClientUnavailable | SessionUnavailable | SessionReady

  /** The script's end: exit code 1 with nothing on stdout, or exit code 0
      with the protected-key record printed as JSON. */
  datatype ScriptExit = Failed | Printed(litCiphertext: string, litDataHash: string)

  predicate Truthy(s: Option<string>) {
    s.Some? && s.value != ""
  }

  /** `main`: fewer than two arguments exit before anything else; then the
      client and session are set up; then the key is decoded and encrypted;
      a result lacking the ciphertext or the hash is an error. The network
      outcomes are oracles; `encrypt` throwing is a `None` result. */
  function Main(args: seq<string>, session: LitSession, encrypt: Bytes -> Option<LitEncryptResult>): (r: ScriptExit)
    ensures |args| < 2 ==> r == Failed
    ensures r.Printed? ==>
      && |args| >= 2 && session == SessionReady
      && HexToUint8Array(args[0]).Ok?
      && encrypt(HexToUint8Array(args[0]).value)
         == Some(LitEncryptResult(Some(r.litCiphertext), Some(r.litDataHash)))
      && r.litCiphertext != "" && r.litDataHash != ""
  {
    if |args| < 2 then Failed
    else if session != SessionReady then Failed
    else
      match HexToUint8Array(args[0])
      case Err(_) => Failed
      case Ok(dataToEncrypt) =>
        match encrypt(dataToEncrypt)
        case None => Failed
        case Some(res) =>
          if !Truthy(res.ciphertext) || !Truthy(res.dataToEncryptHash) then Failed
          else Printed(res.ciphertext.value, res.dataToEncryptHash.value)
  }

  /** The argument count is checked before any decoding or network use:
      with fewer than two arguments the outcome does not depend on the
      session or on what encryption would return. */
  lemma ArgumentCountCheckedFirst(args: seq<string>, s1: LitSession, s2: LitSession,
                                  e1: Bytes -> Option<LitEncryptResult>, e2: Bytes -> Option<LitEncryptResult>)
    requires |args| < 2
    ensures Main(args, s1, e1) == Main(args, s2, e2) == Failed
  {
  }

  /** A key from the command-line client (`hex::encode`, lowercase) reaches
      Lit unchanged, and a result missing either field fails. */
  lemma EncodedKeyReachesLit(key: Bytes, address: string, encrypt: Bytes -> Option<LitEncryptResult>)
    ensures var r := Main([Hex.BytesToHex(key), address], SessionReady, encrypt);
      r.Printed? <==> encrypt(key).Some? && Truthy(encrypt(key).value.ciphertext)
                      && Truthy(encrypt(key).value.dataToEncryptHash)
    ensures var r := Main([Hex.BytesToHex(key), address], SessionReady, encrypt);
      r.Printed? ==> encrypt(key) == Some(LitEncryptResult(Some(r.litCiphertext), Some(r.litDataHash)))
  {
    HexRoundTrip(key);
  }
}
