/** The pieces of Rust's `str` the command-line client relies on: `trim`,
    `lines().last()` and a last-occurrence search. */
module RustStr {
  import opened Common

  /** `char::is_whitespace`: the Unicode White_Space property. */
  predicate IsWhitespace(ch: char) {
    || ('\t' <= ch <= '\r') || ch == ' ' || ch == '\U{85}' || ch == '\U{A0}' || ch == '\U{1680}'
    || ('\U{2000}' <= ch <= '\U{200A}') || ch == '\U{2028}' || ch == '\U{2029}' || ch == '\U{202F}'
    || ch == '\U{205F}' || ch == '\U{3000}'
  }

  predicate AllWhitespace(s: string) {
    forall i | 0 <= i < |s| :: IsWhitespace(s[i])
  }

  /** `str::trim_start`: the suffix left after dropping leading whitespace. */
  function TrimStart(s: string): (r: string)
    ensures |r| <= |s| && r == s[|s| - |r|..]
    ensures AllWhitespace(s[..|s| - |r|])
    ensures r == [] || !IsWhitespace(r[0])
  {
    if |s| > 0 && IsWhitespace(s[0]) then
      var t := s[1..];
      var r := TrimStart(t);
      var k := |s| - |r|;
      assert forall j | 1 <= j < k :: s[..k][j] == t[..k - 1][j - 1];
      r
    else s
  }

  /** `str::trim_end`: the prefix left after dropping trailing whitespace. */
  function TrimEnd(s: string): (r: string)
    ensures |r| <= |s| && r == s[..|r|]
    ensures AllWhitespace(s[|r|..])
    ensures r == [] || !IsWhitespace(r[|r| - 1])
  {
    if |s| > 0 && IsWhitespace(s[|s| - 1]) then
      var r := TrimEnd(s[..|s| - 1]);
      assert s[|r|..] == s[..|s| - 1][|r|..] + [s[|s| - 1]];
      r
    else s
  }

  /** `str::trim`: the piece of `s` left between leading and trailing
      whitespace. */
  function Trim(s: string): (r: string)
    ensures |r| <= |s|
    ensures r == [] || (!IsWhitespace(r[0]) && !IsWhitespace(r[|r| - 1]))
  {
    TrimStart(TrimEnd(s))
  }

  /** `r` is the piece of `s` at offset `i`, with only whitespace before
      and after it. */
  predicate IsPieceBetweenWhitespace(s: string, i: nat, r: string) {
    && i + |r| <= |s| && s[i..i + |r|] == r
    && AllWhitespace(s[..i]) && AllWhitespace(s[i + |r|..])
  }

  /** What `trim` returns is a piece of its input with only whitespace
      cut away on either side. */
  lemma TrimIsSlice(s: string)
    ensures exists i :: IsPieceBetweenWhitespace(s, i, Trim(s))
  {
    var e := TrimEnd(s);
    assert Trim(s) == TrimStart(e);
    SliceBetweenWhitespace(s, e, Trim(s));
  }

  /** A suffix `r` of a prefix `e` of `s`, with whitespace cut from both,
      sits in `s` between two whitespace runs. */
  lemma SliceBetweenWhitespace(s: string, e: string, r: string)
    requires |e| <= |s| && e == s[..|e|] && AllWhitespace(s[|e|..])
    requires |r| <= |e| && r == e[|e| - |r|..] && AllWhitespace(e[..|e| - |r|])
    ensures IsPieceBetweenWhitespace(s, |e| - |r|, r)
  {
    var i := |e| - |r|;
    assert s[i..i + |r|] == r;
    assert s[..i] == e[..i];
    assert s[i + |r|..] == s[|e|..];
  }

  /** An all-whitespace string trims to nothing from either end. */
  lemma {:induction false} TrimOfAllWhitespace(w: string)
    requires AllWhitespace(w)
    ensures TrimStart(w) == [] && TrimEnd(w) == []
    decreases |w|
  {
    if |w| > 0 {
      TrimOfAllWhitespace(w[1..]);
      TrimOfAllWhitespace(w[..|w| - 1]);
    }
  }

  /** The converse of `Trim`'s contract: whitespace around a piece whose
      ends are not whitespace is exactly what `trim` removes. */
  lemma TrimCharacterization(w1: string, m: string, w2: string)
    requires AllWhitespace(w1) && AllWhitespace(w2)
    requires m == [] || (!IsWhitespace(m[0]) && !IsWhitespace(m[|m| - 1]))
    ensures Trim(w1 + m + w2) == m
  {
    TrimEndDropsAppendedWhitespace(w1 + m, w2);
    TrimOfAllWhitespace(w1);
    if m == [] {
      assert w1 + m == w1;
    } else {
      assert (w1 + m)[|w1 + m| - 1] == m[|m| - 1];
      TrimEndOfNonWhitespaceEnd(w1 + m);
      TrimStartOfConcat(w1, m);
    }
  }

  /** Where the line holding position `p` begins: just after the last
      `\n` before `p`, or at 0. */
  function LineStart(s: string, p: nat): (start: nat)
    requires p <= |s|
    ensures start <= p
    ensures start == 0 || s[start - 1] == '\n'
    ensures forall i | start <= i < p :: s[i] != '\n'
  {
    if p == 0 || s[p - 1] == '\n' then p else LineStart(s, p - 1)
  }

  /** A position after a line break (or at 0) with no break up to `p` is
      where `p`'s line begins. */
  lemma {:induction false} LineStartUnique(s: string, p: nat, start: nat)
    requires start <= p <= |s|
    requires start == 0 || s[start - 1] == '\n'
    requires forall i | start <= i < p :: s[i] != '\n'
    ensures LineStart(s, p) == start
    decreases p
  {
    if p > start {
      LineStartUnique(s, p - 1, start);
    }
  }

  /** The position of the last `ch` in `s`, if any. */
  function LastIndexOf(s: string, ch: char): (r: Option<nat>)
    ensures r.Some? ==> r.value < |s| && s[r.value] == ch
    ensures r.Some? ==> forall i | r.value < i < |s| :: s[i] != ch
    ensures r.None? ==> forall i | 0 <= i < |s| :: s[i] != ch
  {
    if |s| == 0 then None
    else if s[|s| - 1] == ch then Some(|s| - 1)
    else LastIndexOf(s[..|s| - 1], ch)
  }

  /** `s.lines().last()`: lines end at `\n`, a final `\n` does not start an
      empty line, and a line that ended with `\n` also loses one `\r`. */
  function LastLine(s: string): (r: Option<string>)
    ensures r.None? <==> s == []
    ensures r.Some? ==> forall i | 0 <= i < |r.value| :: r.value[i] != '\n'
    ensures r.Some? && s[|s| - 1] != '\n' ==>
      && |r.value| <= |s| && s[|s| - |r.value|..] == r.value
      && (|r.value| == |s| || s[|s| - |r.value| - 1] == '\n')
  {
    if s == [] then None
    else
      var endsWithNewline := s[|s| - 1] == '\n';
      var body := if endsWithNewline then s[..|s| - 1] else s;
      var start := match LastIndexOf(body, '\n') case None => 0 case Some(i) => i + 1;
      var line := body[start..];
      Some(if endsWithNewline && |line| > 0 && line[|line| - 1] == '\r' then line[..|line| - 1] else line)
  }

  lemma TrimEndOfNonWhitespaceEnd(s: string)
    requires s != [] && !IsWhitespace(s[|s| - 1])
    ensures TrimEnd(s) == s
  {
  }

  lemma TrimStartOfNonWhitespaceStart(s: string)
    requires s != [] && !IsWhitespace(s[0])
    ensures TrimStart(s) == s
  {
  }

  /** Trimming the front of text that ends in non-whitespace leaves
      something. */
  lemma {:induction false} TrimStartOfNonWhitespaceEnd(s: string)
    requires s != [] && !IsWhitespace(s[|s| - 1])
    ensures TrimStart(s) != []
    decreases |s|
  {
    if IsWhitespace(s[0]) {
      assert |s| > 1 && s[1..][|s| - 2] == s[|s| - 1];
      TrimStartOfNonWhitespaceEnd(s[1..]);
    }
  }

  /** Dropping `i` more elements from `t[m..]` is dropping `m + i` from
      `t`. */
  lemma SuffixOfSuffix(t: string, m: nat, i: nat)
    requires m + i <= |t|
    ensures t[m..][i..] == t[m + i..]
  {
  }

  /** Trailing whitespace appended to `s` is trimmed away again. */
  lemma {:induction false} TrimEndDropsAppendedWhitespace(s: string, w: string)
    requires AllWhitespace(w)
    ensures TrimEnd(s + w) == TrimEnd(s)
    decreases |w|
  {
    if |w| > 0 {
      assert (s + w)[..|s + w| - 1] == s + w[..|w| - 1];
      TrimEndDropsAppendedWhitespace(s, w[..|w| - 1]);
    } else {
      assert s + w == s;
    }
  }

  /** Trimming the front of `a + b` where `b` starts with non-whitespace
      stops inside `a` or at the start of `b`. */
  lemma {:induction false} TrimStartOfConcat(a: string, b: string)
    requires b != [] && !IsWhitespace(b[0])
    ensures TrimStart(a + b) == TrimStart(a) + b
    decreases |a|
  {
    if |a| == 0 {
      assert a + b == b;
      TrimStartOfNonWhitespaceStart(b);
    } else if IsWhitespace(a[0]) {
      assert (a + b)[1..] == a[1..] + b;
      TrimStartOfConcat(a[1..], b);
    } else {
      assert (a + b)[0] == a[0];
    }
  }

  /** `trim` returns a piece of its input, so it adds no character. */
  lemma TrimAddsNoChar(s: string, ch: char)
    requires forall i | 0 <= i < |s| :: s[i] != ch
    ensures forall i | 0 <= i < |Trim(s)| :: Trim(s)[i] != ch
  {
    var e := TrimEnd(s);
    NoCharInSuffixOfPrefix(s, e, TrimStart(e), ch);
  }

  lemma NoCharInSuffixOfPrefix(s: string, e: string, r: string, ch: char)
    requires forall i | 0 <= i < |s| :: s[i] != ch
    requires |e| <= |s| && e == s[..|e|]
    requires |r| <= |e| && r == e[|e| - |r|..]
    ensures forall i | 0 <= i < |r| :: r[i] != ch
  {
    assert forall i | 0 <= i < |r| :: r[i] == s[|e| - |r| + i];
  }

  lemma {:induction false} LastIndexOfConcat(a: string, b: string, ch: char)
    requires forall i | 0 <= i < |b| :: b[i] != ch
    ensures LastIndexOf(a + b, ch) == LastIndexOf(a, ch)
    decreases |b|
  {
    if |b| == 0 {
      assert a + b == a;
    } else {
      assert (a + b)[..|a + b| - 1] == a + b[..|b| - 1];
      LastIndexOfConcat(a, b[..|b| - 1], ch);
    }
  }
}
