/** How the command-line client in `src/main.rs` names the decrypted file:
    `decrypted_` followed by the archived name, or, when that file exists,
    `stem_k.ext` (`stem_k` without an extension) for the first free `k`.

    The file system's `exists` query is membership in a finite set of
    existing paths. */
module OutputName {
  import opened Common
  import opened RustStr

  const DecryptedFileNamePrefix: string := "decrypted_"

  function BaseFileName(archivedName: string): (r: string)
    ensures |r| == |DecryptedFileNamePrefix| + |archivedName|
    ensures r[..|DecryptedFileNamePrefix|] == DecryptedFileNamePrefix
    ensures r[|DecryptedFileNamePrefix|..] == archivedName
  {
    DecryptedFileNamePrefix + archivedName
  }

  /** The text after the last `/`, which `Path::file_name` returns when it
      is an ordinary name. */
  function FinalComponent(path: string): (f: string)
    ensures |f| <= |path| && f == path[|path| - |f|..]
    ensures forall i | 0 <= i < |f| :: f[i] != '/'
    ensures |f| == |path| || path[|path| - |f| - 1] == '/'
  {
    match LastIndexOf(path, '/')
    case None => path
    case Some(i) => path[i + 1..]
  }

  /** The final component is an ordinary file name, neither empty (a
      trailing `/`) nor `.` nor `..`. */
  predicate HasNormalFileName(path: string) {
    var f := FinalComponent(path);
    f != "" && f != "." && f != ".."
  }

  /** `rsplit_file_at_dot` of Rust's `std::path`: the parts before and
      after the last `.`; a name whose only dot leads it, and `..`, have no
      extension. */
  function RSplitFileAtDot(file: string): (r: (Option<string>, Option<string>))
    ensures r.0.Some? || r.1.Some?
    ensures r.0.Some? && r.1.Some? ==>
      && file == r.0.value + "." + r.1.value && r.0.value != []
      && forall i | 0 <= i < |r.1.value| :: r.1.value[i] != '.'
    ensures r.0.None? ==> r.1 == Some(file) && forall i | 0 <= i < |file| :: file[i] != '.'
    ensures r.1.None? ==>
      && r.0 == Some(file)
      && (file == ".." || (file != [] && file[0] == '.' && forall i | 1 <= i < |file| :: file[i] != '.'))
  {
    if file == ".." then (Some(file), None)
    else
      match LastIndexOf(file, '.')
      case None => (None, Some(file))
      case Some(i) => if i == 0 then (Some(file), None) else (Some(file[..i]), Some(file[i + 1..]))
  }

  /** `path.file_stem().unwrap_or_default()`. */
  function FileStem(path: string): (stem: string)
    requires HasNormalFileName(path)
    ensures var f := FinalComponent(path); stem != [] && |stem| <= |f| && stem == f[..|stem|]
  {
    FileNameStem(FinalComponent(path))
  }

  /** The stem of a non-empty file name: before its last `.`, or the whole
      name when that dot leads it, the name is `..` or there is no dot. */
  function FileNameStem(f: string): (stem: string)
    requires f != []
    ensures stem != [] && |stem| <= |f| && stem == f[..|stem|]
  {
    match RSplitFileAtDot(f)
    case (Some(before), None) => before
    case (Some(before), Some(after)) =>
      PartsAroundDot(f, before, after);
      before
    case (None, Some(after)) => after
    case (None, None) => ""
  }

  /** `path.extension().unwrap_or_default()`. */
  function Extension(path: string): (ext: string)
    requires HasNormalFileName(path)
    ensures var f := FinalComponent(path); |ext| < |f| && ext == f[|f| - |ext|..]
    ensures forall i | 0 <= i < |ext| :: ext[i] != '.'
    ensures var f := FinalComponent(path); ext != [] ==> f[|f| - |ext| - 1] == '.'
  {
    FileExtension(FinalComponent(path))
  }

  /** The extension of a non-empty file name: after its last `.`, unless
      that dot leads the name or the name is `..`. */
  function FileExtension(f: string): (ext: string)
    requires f != []
    ensures |ext| < |f| && ext == f[|f| - |ext|..]
    ensures forall i | 0 <= i < |ext| :: ext[i] != '.'
    ensures ext != [] ==> f[|f| - |ext| - 1] == '.'
  {
    match RSplitFileAtDot(f)
    case (Some(before), Some(after)) =>
      PartsAroundDot(f, before, after);
      after
    case _ => ""
  }

  /** Where the two parts of `before.after` sit in the whole. */
  lemma PartsAroundDot(f: string, before: string, after: string)
    requires f == before + "." + after
    ensures |before| < |f| && f[..|before|] == before
    ensures |after| < |f| && f[|f| - |after|..] == after && f[|f| - |after| - 1] == '.'
  {
    assert f[..|before|] == before;
    assert f[|f| - |after|..] == after;
  }

  /** Stem and extension put back together give the file name, the dot
      dropped only when the extension is empty. */
  lemma StemAndExtensionRebuildName(path: string)
    requires HasNormalFileName(path)
    ensures var f := FinalComponent(path);
      if Extension(path) == "" then f == FileStem(path) || f == FileStem(path) + "."
      else f == FileStem(path) + "." + Extension(path)
  {
    StemAndExtensionRebuildFileName(FinalComponent(path));
  }

  lemma StemAndExtensionRebuildFileName(f: string)
    requires f != []
    ensures if FileExtension(f) == "" then f == FileNameStem(f) || f == FileNameStem(f) + "."
            else f == FileNameStem(f) + "." + FileExtension(f)
  {
    match LastIndexOf(f, '.')
    case None =>
    case Some(i) =>
      if i > 0 {
        assert f == f[..i] + "." + f[i + 1..];
      }
  }

  function DecimalDigit(d: nat): char
    requires d < 10
  {
    ('0' as int + d) as char
  }

  /** `format!("{}", n)`: decimal digits, most significant first. */
  function Decimal(n: nat): (s: string)
    ensures |s| >= 1
    ensures forall i | 0 <= i < |s| :: '0' <= s[i] <= '9'
  {
    if n < 10 then [DecimalDigit(n)] else Decimal(n / 10) + [DecimalDigit(n % 10)]
  }

  /** Only zero itself is written with a leading `0`. */
  lemma {:induction false} DecimalHasNoLeadingZero(n: nat)
    ensures Decimal(n)[0] == '0' ==> n == 0
  {
    if n >= 10 {
      DecimalHasNoLeadingZero(n / 10);
      assert Decimal(n)[0] == Decimal(n / 10)[0];
    }
  }

  /** Reading decimal digits back as a number. */
  function DecimalValue(s: string): nat
    requires forall i | 0 <= i < |s| :: '0' <= s[i] <= '9'
  {
    if |s| == 0 then 0 else DecimalValue(s[..|s| - 1]) * 10 + (s[|s| - 1] as int - '0' as int)
  }

  lemma {:induction false} DecimalValueOfDecimal(n: nat)
    ensures DecimalValue(Decimal(n)) == n
  {
    if n >= 10 {
      DecimalValueOfDecimal(n / 10);
      var s := Decimal(n);
      assert s[..|s| - 1] == Decimal(n / 10);
    }
  }

  lemma DecimalInjective(a: nat, b: nat)
    requires Decimal(a) == Decimal(b)
    ensures a == b
  {
    DecimalValueOfDecimal(a);
    DecimalValueOfDecimal(b);
  }

  /** The `k`-th replacement name built from the base name's stem and
      extension. */
  function Candidate(stem: string, ext: string, k: nat): string {
    if ext == "" then stem + "_" + Decimal(k) else stem + "_" + Decimal(k) + "." + ext
  }

  /** A replacement name starts with the stem and `_`, continues with the
      counter's digits, and ends with `.` and the extension when there is
      one; without one it ends in a digit. */
  lemma CandidateShape(stem: string, ext: string, k: nat)
    ensures var c, p := Candidate(stem, ext, k), |stem| + 1;
      && |c| > p && c[..p] == stem + "_"
      && (ext != "" ==> |c| > |ext| + 1 && c[|c| - |ext| - 1..] == "." + ext)
      && (ext == "" ==> '0' <= c[|c| - 1] <= '9')
  {
    var c, d := Candidate(stem, ext, k), Decimal(k);
    if ext == "" {
      assert c == (stem + "_") + d && c[|c| - 1] == d[|d| - 1];
    } else {
      assert c == (stem + "_") + (d + "." + ext);
    }
  }

  /** Different counters give different names, so the search always
      moves on to a name it has not tried. */
  lemma CandidateInjective(stem: string, ext: string, j: nat, k: nat)
    requires Candidate(stem, ext, j) == Candidate(stem, ext, k)
    ensures j == k
  {
    var suffix := if ext == "" then "" else "." + ext;
    var cj, ck := Candidate(stem, ext, j), Candidate(stem, ext, k);
    assert cj == stem + "_" + Decimal(j) + suffix;
    assert ck == stem + "_" + Decimal(k) + suffix;
    var p := |stem| + 1;
    assert |Decimal(j)| == |Decimal(k)|;
    assert cj[p..p + |Decimal(j)|] == Decimal(j);
    assert ck[p..p + |Decimal(k)|] == Decimal(k);
    DecimalInjective(j, k);
  }

  /** The names tried before counter `n`. */
  function CandidatesBefore(stem: string, ext: string, n: nat): set<string> {
    set j | 1 <= j < n :: Candidate(stem, ext, j)
  }

  lemma CandidatesBeforeStep(stem: string, ext: string, n: nat)
    requires n >= 1
    ensures Candidate(stem, ext, n) !in CandidatesBefore(stem, ext, n)
    ensures CandidatesBefore(stem, ext, n + 1) == CandidatesBefore(stem, ext, n) + {Candidate(stem, ext, n)}
  {
    if Candidate(stem, ext, n) in CandidatesBefore(stem, ext, n) {
      var j :| 1 <= j < n && Candidate(stem, ext, j) == Candidate(stem, ext, n);
      CandidateInjective(stem, ext, j, n);
    }
  }

  /** The de-duplication loop of `main`. The base name is kept when free;
      otherwise the counter runs from 1 until `stem_k[.ext]` is free, with
      stem and extension taken once from the base name. `counter` is the
      loop's final counter. */
  method ChooseOutputName(archivedName: string, existing: set<string>) returns (name: string, counter: nat)
    requires HasNormalFileName(BaseFileName(archivedName))
    ensures name !in existing
    ensures counter == 0 <==> BaseFileName(archivedName) !in existing
    ensures counter == 0 ==> name == BaseFileName(archivedName)
    ensures counter > 0 ==>
      name == Candidate(FileStem(BaseFileName(archivedName)), Extension(BaseFileName(archivedName)), counter)
    ensures forall j | 1 <= j < counter ::
      Candidate(FileStem(BaseFileName(archivedName)), Extension(BaseFileName(archivedName)), j) in existing
  {
    var base := BaseFileName(archivedName);
    name, counter := FirstFreeName(base, FileStem(base), Extension(base), existing);
  }

  /** The loop itself: `base` when free, otherwise `Candidate(stem, ext, k)`
      for the first free `k` from 1 on. */
  method FirstFreeName(base: string, stem: string, ext: string, existing: set<string>)
    returns (name: string, counter: nat)
    ensures name !in existing
    ensures counter == 0 <==> base !in existing
    ensures counter == 0 ==> name == base
    ensures counter > 0 ==> name == Candidate(stem, ext, counter)
    ensures forall j | 1 <= j < counter :: Candidate(stem, ext, j) in existing
  {
    counter := 0;
    name := base;
    ghost var tried: set<string> := {};
    while name in existing
      invariant counter == 0 ==> name == base
      invariant counter > 0 ==> name == Candidate(stem, ext, counter) && base in existing
      invariant tried == CandidatesBefore(stem, ext, counter)
      invariant tried <= existing
      decreases |existing - tried|, if counter == 0 then 1 else 0
    {
      if counter > 0 {
        CandidatesBeforeStep(stem, ext, counter);
        assert existing - (tried + {name}) == (existing - tried) - {name};
        tried := tried + {name};
      } else {
        assert CandidatesBefore(stem, ext, 1) == {};
      }
      counter := counter + 1;
      name := Candidate(stem, ext, counter);
    }
    assert forall j | 1 <= j < counter :: Candidate(stem, ext, j) in tried;
  }
}
