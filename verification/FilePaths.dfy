/**
  Path names: removal of redundant separators, file names numbered to be unique, and the
  search for a name that does not exist yet.
 */
module FilePaths {
  import opened Collections
  import opened Decimals

  /** Windows also accepts '/' as an alternate separator. */
  datatype Platform = Posix | Windows {
    function Separator(): char { if Windows? then '\\' else '/' }

    predicate IsPathSeparator(c: char) { c == Separator() || (Windows? && c == '/') }
  }

  /** A string that a C string can hold. */
  type CString = s: string | '\0' !in s witness ""

  // ---- normalization ----

  function SkipSeparators(p: Platform, s: CString): (r: CString)
    ensures |r| <= |s|
  {
    if s != "" && p.IsPathSeparator(s[0]) then SkipSeparators(p, s[1..]) else s
  }

  /** Each run of separators becomes a single primary separator. */
  function Normalized(p: Platform, s: CString): (r: CString)
    decreases |s|
  {
    if s == "" then ""
    else if p.IsPathSeparator(s[0]) then [p.Separator()] + Normalized(p, SkipSeparators(p, s[1..]))
    else [s[0]] + Normalized(p, s[1..])
  }

  function Rest(s: CString, k: nat): (r: CString)
    requires k <= |s|
    ensures |r| == |s| - k
    ensures k < |s| ==> r[0] == s[k] && r[1..] == s[k + 1..]
    ensures k == 0 ==> r == s
  {
    s[k..]
  }

  /** The loop over a run of separators. */
  method AfterSeparators(p: Platform, pathname: CString, start: nat) returns (src: nat)
    requires start <= |pathname|
    ensures start <= src <= |pathname|
    ensures Rest(pathname, src) == SkipSeparators(p, Rest(pathname, start))
  {
    src := start;
    while src < |pathname| && p.IsPathSeparator(pathname[src])
      invariant start <= src <= |pathname|
      invariant SkipSeparators(p, Rest(pathname, src)) == SkipSeparators(p, Rest(pathname, start))
    {
      src := src + 1;
    }
  }

  method Normalize(p: Platform, pathname: CString) returns (r: CString)
    ensures r == Normalized(p, pathname)
  {
    var dest := new char[|pathname| + 1](_ => '\0');
    var src, destPtr := 0, 0;
    ghost var done := "";
    while src < |pathname|
      invariant |done| == destPtr <= src <= |pathname|
      invariant (forall k | 0 <= k < destPtr :: dest[k] == done[k]) && '\0' !in done
      invariant done + Normalized(p, Rest(pathname, src)) == Normalized(p, pathname)
    {
      ghost var start := src;
      dest[destPtr] := pathname[src];
      if !p.IsPathSeparator(pathname[src]) {
        src := src + 1;
      } else {
        if p.Windows? && dest[destPtr] == '/' {
          dest[destPtr] := p.Separator();
        }
        src := AfterSeparators(p, pathname, src + 1);
      }
      NormalizedStep(p, done, dest[destPtr], Rest(pathname, start), Rest(pathname, src));
      destPtr, done := destPtr + 1, done + [dest[destPtr]];
    }
    assert dest[..destPtr] == done;
    return dest[..destPtr];
  }

  lemma NormalizedStep(p: Platform, done: string, c: char, s: CString, rest: CString)
    requires s != "" && rest == if p.IsPathSeparator(s[0]) then SkipSeparators(p, s[1..]) else s[1..]
    requires c == if p.IsPathSeparator(s[0]) then p.Separator() else s[0]
    ensures done + [c] + Normalized(p, rest) == done + Normalized(p, s)
  {
    assert Normalized(p, s) == [c] + Normalized(p, rest);
  }

  /** Only single, primary separators. */
  ghost predicate IsNormal(p: Platform, s: string) {
    forall i | 0 <= i < |s| && p.IsPathSeparator(s[i]) ::
      s[i] == p.Separator() && (i + 1 < |s| ==> !p.IsPathSeparator(s[i + 1]))
  }

  lemma {:induction false} SkipsAll(p: Platform, s: CString)
    ensures SkipSeparators(p, s) == "" || !p.IsPathSeparator(SkipSeparators(p, s)[0])
  {
    if s != "" && p.IsPathSeparator(s[0]) {
      SkipsAll(p, s[1..]);
    }
  }

  lemma NormalizedHead(p: Platform, s: CString)
    requires s != ""
    ensures Normalized(p, s) != ""
    ensures p.IsPathSeparator(Normalized(p, s)[0]) <==> p.IsPathSeparator(s[0])
  {
  }

  lemma NormalCons(p: Platform, c: char, s: string)
    requires IsNormal(p, s)
    requires p.IsPathSeparator(c) ==> c == p.Separator() && (s == "" || !p.IsPathSeparator(s[0]))
    ensures IsNormal(p, [c] + s)
  {
  }

  lemma {:induction false} NormalizedIsNormal(p: Platform, s: CString)
    ensures IsNormal(p, Normalized(p, s))
    decreases |s|
  {
    if s != "" {
      if p.IsPathSeparator(s[0]) {
        var rest := SkipSeparators(p, s[1..]);
        SkipsAll(p, s[1..]);
        NormalizedIsNormal(p, rest);
        if rest != "" {
          NormalizedHead(p, rest);
        }
        NormalCons(p, p.Separator(), Normalized(p, rest));
      } else {
        NormalizedIsNormal(p, s[1..]);
        NormalCons(p, s[0], Normalized(p, s[1..]));
      }
    }
  }

  lemma {:induction false} NormalUnchanged(p: Platform, s: CString)
    requires IsNormal(p, s)
    ensures Normalized(p, s) == s
  {
    if s != "" {
      assert forall i | 0 <= i < |s| - 1 :: s[1..][i] == s[i + 1];
      NormalUnchanged(p, s[1..]);
      assert p.IsPathSeparator(s[0]) ==> SkipSeparators(p, s[1..]) == s[1..];
      assert s == [s[0]] + s[1..];
    }
  }

  /** Normalization leaves exactly the normal path names alone, and is idempotent. */
  lemma NormalizedFixpoint(p: Platform, s: CString)
    ensures Normalized(p, s) == s <==> IsNormal(p, s)
    ensures Normalized(p, Normalized(p, s)) == Normalized(p, s)
  {
    NormalizedIsNormal(p, s);
    NormalUnchanged(p, Normalized(p, s));
    if IsNormal(p, s) {
      NormalUnchanged(p, s);
    }
  }

  lemma {:induction false} SkippingSplits(p: Platform, a: CString, b: CString)
    requires b != "" && !p.IsPathSeparator(b[0])
    ensures SkipSeparators(p, a + b) == SkipSeparators(p, a) + b
  {
    if a == "" {
      assert a + b == b;
    } else if p.IsPathSeparator(a[0]) {
      assert (a + b)[1..] == a[1..] + b;
      SkippingSplits(p, a[1..], b);
    }
  }

  /** Text that starts with no separator is normalized apart from what precedes it. */
  lemma {:induction false} NormalizedSplits(p: Platform, a: CString, b: CString)
    requires b != "" && !p.IsPathSeparator(b[0])
    ensures Normalized(p, a + b) == Normalized(p, a) + Normalized(p, b)
    decreases |a|
  {
    if a == "" {
      assert a + b == b;
    } else {
      var skip := p.IsPathSeparator(a[0]);
      var c := if skip then p.Separator() else a[0];
      var rest := if skip then SkipSeparators(p, a[1..]) else a[1..];
      assert Normalized(p, a) == [c] + Normalized(p, rest);
      assert Normalized(p, a + b) == [c] + Normalized(p, rest + b) by {
        assert (a + b)[0] == a[0] && (a + b)[1..] == a[1..] + b;
        SkippingSplits(p, a[1..], b);
      }
      NormalizedSplits(p, rest, b);
      ConsAppend(c, Normalized(p, rest), Normalized(p, b));
    }
  }

  lemma ConsAppend(c: char, a: string, b: string)
    ensures ([c] + a) + b == [c] + (a + b)
  {
  }

  lemma {:induction false} PlainTextKept(p: Platform, plain: CString, b: CString)
    requires forall c | c in plain :: !p.IsPathSeparator(c)
    ensures Normalized(p, plain + b) == plain + Normalized(p, b)
  {
    if plain == "" {
      assert plain + b == b;
    } else {
      assert (plain + b)[1..] == plain[1..] + b;
      PlainTextKept(p, plain[1..], b);
    }
  }

  lemma NormalizedAround(p: Platform, a: CString, plain: CString, b: CString)
    requires plain != "" && forall c | c in plain :: !p.IsPathSeparator(c)
    ensures Normalized(p, a + plain + b) == Normalized(p, a) + plain + Normalized(p, b)
  {
    assert a + plain + b == a + (plain + b);
    NormalizedSplits(p, a, plain + b);
    PlainTextKept(p, plain, b);
  }

  lemma {:induction false} SkipsRun(p: Platform, seps: CString, b: CString)
    requires forall c | c in seps :: p.IsPathSeparator(c)
    requires b == "" || !p.IsPathSeparator(b[0])
    ensures SkipSeparators(p, seps + b) == b
  {
    if seps == "" {
      assert seps + b == b;
    } else {
      assert (seps + b)[1..] == seps[1..] + b;
      SkipsRun(p, seps[1..], b);
    }
  }

  /** Each run of separators, however long, becomes a single one. */
  lemma RunBecomesOne(p: Platform, a: CString, seps: CString, b: CString)
    requires seps != "" && forall c | c in seps :: p.IsPathSeparator(c)
    requires a == "" || !p.IsPathSeparator(a[|a| - 1])
    requires b == "" || !p.IsPathSeparator(b[0])
    ensures Normalized(p, a + seps + b) == Normalized(p, a) + [if p.Posix? then '/' else '\\'] + Normalized(p, b)
  {
    var run := seps + b;
    assert a + seps + b == a + run;
    assert Normalized(p, a + run) == Normalized(p, a) + Normalized(p, run) by {
      if a == "" {
        assert a + run == run;
      } else {
        LastKept(p, a, run);
      }
    }
    RunInFront(p, seps, b);
    Associate(Normalized(p, a), [p.Separator()], Normalized(p, b));
  }

  lemma RunInFront(p: Platform, seps: CString, b: CString)
    requires seps != "" && forall c | c in seps :: p.IsPathSeparator(c)
    requires b == "" || !p.IsPathSeparator(b[0])
    ensures Normalized(p, seps + b) == [p.Separator()] + Normalized(p, b)
  {
    assert (seps + b)[0] == seps[0] && (seps + b)[1..] == seps[1..] + b;
    SkipsRun(p, seps[1..], b);
  }

  lemma Associate(a: string, b: string, c: string)
    ensures a + (b + c) == (a + b) + c
  {
  }

  lemma LastKept(p: Platform, a: CString, run: CString)
    requires a != "" && !p.IsPathSeparator(a[|a| - 1])
    ensures Normalized(p, a + run) == Normalized(p, a) + Normalized(p, run)
  {
    var front, last: CString := a[..|a| - 1], [a[|a| - 1]];
    assert a == front + last && a + run == front + (last + run);
    assert Normalized(p, last + run) == last + Normalized(p, run) && Normalized(p, last) == last by {
      PlainTextKept(p, last, run);
      assert last[1..] == "";
    }
    NormalizedSplits(p, front, last);
    NormalizedSplits(p, front, last + run);
    Associate(Normalized(p, front), last, Normalized(p, run));
  }

  /** With '/' alone as separator a backslash is plain text; otherwise either of them, in
      any mixture, becomes a backslash. */
  lemma SeparatorsAre(a: CString, seps: CString, b: CString)
    requires '/' !in a && '\\' !in a && '/' !in b && '\\' !in b
    requires seps != "" && forall c | c in seps :: c == '/' || c == '\\'
    ensures '/' !in seps ==> Normalized(Posix, a + seps + b) == a + seps + b
    ensures '\\' !in seps ==> Normalized(Posix, a + seps + b) == a + "/" + b
    ensures Normalized(Windows, a + seps + b) == a + "\\" + b
  {
    var whole := a + seps + b;
    if '/' !in seps {
      NormalUnchanged(Posix, whole);
    }
    NormalUnchanged(Posix, a);
    NormalUnchanged(Posix, b);
    NormalUnchanged(Windows, a);
    NormalUnchanged(Windows, b);
    if '\\' !in seps {
      RunBecomesOne(Posix, a, seps, b);
    }
    RunBecomesOne(Windows, a, seps, b);
  }

  // ---- file names ----

  /** A path name; every constructor from text normalizes it. */
  datatype FilePath = FilePath(pathname: CString) {
    predicate IsDirectory(p: Platform) {
      pathname != "" && p.IsPathSeparator(pathname[|pathname| - 1])
    }

    function RemoveTrailingPathSeparator(p: Platform): FilePath {
      if IsDirectory(p) then FromText(p, pathname[..|pathname| - 1]) else this
    }
  }

  function FromText(p: Platform, text: CString): FilePath {
    FilePath(Normalized(p, text))
  }

  function ConcatPaths(p: Platform, directory: FilePath, relativePath: FilePath): FilePath {
    if directory.pathname == "" then relativePath
    else FromText(p, directory.RemoveTrailingPathSeparator(p).pathname + [p.Separator()] + relativePath.pathname)
  }

  /** What distinguishes the numbered file names: the text between base name and extension. */
  function Infix(number: nat): (s: CString)
    ensures s != ""
  {
    if number == 0 then "." else "_" + Decimal(number) + "."
  }

  function MakeFileName(p: Platform, directory: FilePath, baseName: FilePath, number: nat,
                        extension: CString): FilePath
  {
    ConcatPaths(p, directory, FromText(p, baseName.pathname + Infix(number) + extension))
  }

  lemma InfixPlain(p: Platform, number: nat)
    ensures forall c | c in Infix(number) :: !p.IsPathSeparator(c)
  {
  }

  /** The numbered names differ in the infix alone: what precedes and follows it, after all
      normalization, depends on neither the number nor its length. */
  lemma FileNameShape(p: Platform, directory: FilePath, baseName: FilePath, number: nat, extension: CString)
    ensures MakeFileName(p, directory, baseName, number, extension).pathname ==
            NameBefore(p, directory, baseName) + Infix(number) + NameAfter(p, directory, extension)
  {
    InfixPlain(p, number);
    NormalizedAround(p, baseName.pathname, Infix(number), extension);
    if directory.pathname != "" {
      var dir := directory.RemoveTrailingPathSeparator(p).pathname + [p.Separator()];
      var base, ext := Normalized(p, baseName.pathname), Normalized(p, extension);
      Regroup(dir, base, Infix(number), ext);
      NormalizedAround(p, dir + base, Infix(number), ext);
    }
  }

  lemma Regroup(a: string, b: string, c: string, d: string)
    ensures a + (b + c + d) == (a + b) + c + d
  {
  }

  function NameBefore(p: Platform, directory: FilePath, baseName: FilePath): CString {
    if directory.pathname == "" then Normalized(p, baseName.pathname)
    else Normalized(p, directory.RemoveTrailingPathSeparator(p).pathname + [p.Separator()]
                       + Normalized(p, baseName.pathname))
  }

  function NameAfter(p: Platform, directory: FilePath, extension: CString): CString {
    if directory.pathname == "" then Normalized(p, extension)
    else Normalized(p, Normalized(p, extension))
  }

  lemma InfixInjective(m: nat, n: nat)
    requires Infix(m) == Infix(n)
    ensures m == n
  {
    if m != 0 && n != 0 {
      assert Decimal(m) == Infix(m)[1..|Infix(m)| - 1] && Decimal(n) == Infix(n)[1..|Infix(n)| - 1];
      DecimalInjective(m, n);
    }
  }

  /** Different numbers give different file names, whatever the other arguments. */
  lemma MakeFileNameInjective(p: Platform, directory: FilePath, baseName: FilePath, extension: CString,
                              m: nat, n: nat)
    requires MakeFileName(p, directory, baseName, m, extension) == MakeFileName(p, directory, baseName, n, extension)
    ensures m == n
  {
    FileNameShape(p, directory, baseName, m, extension);
    FileNameShape(p, directory, baseName, n, extension);
    var a, b := NameBefore(p, directory, baseName), NameAfter(p, directory, extension);
    assert Infix(m) == (a + Infix(m) + b)[|a|..|a| + |Infix(m)|];
    assert Infix(n) == (a + Infix(n) + b)[|a|..|a| + |Infix(n)|];
    InfixInjective(m, n);
  }

  // ---- file names as text ----

  /** Without a directory: base.extension for number 0, and base_number.extension otherwise. */
  lemma PlainFileName(p: Platform, base: CString, number: nat, extension: CString, d: string)
    requires IsNormal(p, base) && IsNormal(p, extension) && IsNumeral(d, number)
    ensures MakeFileName(p, FilePath(""), FilePath(base), number, extension).pathname ==
            if number == 0 then base + "." + extension else base + "_" + d + "." + extension
  {
    assert MakeFileName(p, FilePath(""), FilePath(base), number, extension).pathname ==
           base + Infix(number) + extension by {
      FileNameShape(p, FilePath(""), FilePath(base), number, extension);
      NormalUnchanged(p, base);
      NormalUnchanged(p, extension);
    }
    assert Infix(number) == if number == 0 then "." else "_" + d + "." by {
      CanonicalNumeral(d);
    }
    Flatten(base, "_", d, ".", extension);
  }

  lemma Flatten(a: string, b: string, c: string, d: string, e: string)
    ensures a + (b + c + d) + e == a + b + c + d + e
  {
  }

  lemma PlainNameStarts(p: Platform, base: CString, number: nat, extension: CString)
    requires IsNormal(p, base) && (base == "" || !p.IsPathSeparator(base[0]))
    ensures var name := MakeFileName(p, FilePath(""), FilePath(base), number, extension).pathname;
            name != "" && !p.IsPathSeparator(name[0]) && Normalized(p, name) == name
  {
    NormalizedFixpoint(p, base + Infix(number) + extension);
    FileNameShape(p, FilePath(""), FilePath(base), number, extension);
    NormalUnchanged(p, base);
    InfixPlain(p, number);
  }

  lemma TrailingRemoved(p: Platform, directory: CString, trailing: CString)
    requires IsNormal(p, directory + trailing)
    requires directory != "" ==> !p.IsPathSeparator(directory[|directory| - 1])
    requires trailing == "" || trailing == [p.Separator()]
    ensures FilePath(directory + trailing).RemoveTrailingPathSeparator(p).pathname == directory
    ensures Normalized(p, directory) == directory
  {
    var whole := directory + trailing;
    assert Normalized(p, directory) == directory by {
      assert forall i | 0 <= i < |directory| :: whole[i] == directory[i];
      NormalUnchanged(p, directory);
    }
    if trailing == "" {
      assert whole == directory;
    } else {
      assert whole[..|whole| - 1] == directory;
    }
  }

  lemma ConcatAfterOneSeparator(p: Platform, directory: CString, trailing: CString, name: CString)
    requires directory + trailing != "" && IsNormal(p, directory + trailing)
    requires directory != "" ==> !p.IsPathSeparator(directory[|directory| - 1])
    requires trailing == "" || trailing == [p.Separator()]
    requires name != "" && !p.IsPathSeparator(name[0]) && Normalized(p, name) == name
    ensures ConcatPaths(p, FilePath(directory + trailing), FilePath(name)).pathname == directory + [p.Separator()] + name
  {
    TrailingRemoved(p, directory, trailing);
    RunBecomesOne(p, directory, [p.Separator()], name);
  }

  /** In a directory, written with or without a separator at its end, the same name follows
      after exactly one separator. */
  lemma FileNameInDirectory(p: Platform, directory: CString, trailing: CString, base: CString, number: nat,
                            extension: CString)
    requires directory + trailing != "" && IsNormal(p, directory + trailing)
    requires directory != "" ==> !p.IsPathSeparator(directory[|directory| - 1])
    requires trailing == "" || trailing == (if p.Posix? then "/" else "\\")
    requires IsNormal(p, base) && (base == "" || !p.IsPathSeparator(base[0]))
    ensures MakeFileName(p, FilePath(directory + trailing), FilePath(base), number, extension).pathname ==
            directory + (if p.Posix? then "/" else "\\") +
            MakeFileName(p, FilePath(""), FilePath(base), number, extension).pathname
  {
    PlainNameStarts(p, base, number, extension);
    var plain := MakeFileName(p, FilePath(""), FilePath(base), number, extension);
    ConcatAfterOneSeparator(p, directory, trailing, plain.pathname);
    assert plain == FilePath(plain.pathname);
  }

  /** The arguments are without redundant separators, and without any where the parts of the
      name meet. */
  ghost predicate Tidy(p: Platform, directory: CString, base: CString, extension: CString) {
    && IsNormal(p, directory) && IsNormal(p, base) && IsNormal(p, extension)
    && (directory != "" ==> !p.IsPathSeparator(directory[|directory| - 1]))
    && (base != "" ==> !p.IsPathSeparator(base[0]))
  }

  /** directory/base.extension, or base.extension without a directory. */
  ghost function UnnumberedText(p: Platform, directory: CString, base: CString, extension: CString): CString {
    (if directory == "" then "" else directory + if p.Posix? then "/" else "\\") + (base + "." + extension)
  }

  lemma UnnumberedName(p: Platform, directory: FilePath, base: FilePath, extension: CString)
    requires Tidy(p, directory.pathname, base.pathname, extension)
    ensures MakeFileName(p, directory, base, 0, extension).pathname ==
            UnnumberedText(p, directory.pathname, base.pathname, extension)
  {
    var d, b := directory.pathname, base.pathname;
    assert directory == FilePath(d) && base == FilePath(b);
    PlainFileName(p, b, 0, extension, "0");
    if d != "" {
      assert d + "" == d;
      FileNameInDirectory(p, d, "", b, 0, extension);
    } else {
      assert "" + (b + "." + extension) == b + "." + extension;
    }
  }

  /** Finitely many existing paths cannot cover more numbered names than there are paths. */
  lemma TakenNamesBound(p: Platform, directory: FilePath, baseName: FilePath, extension: CString,
                        existing: set<CString>, tried: nat)
    requires forall k: nat | k < tried :: MakeFileName(p, directory, baseName, k, extension).pathname in existing
    ensures tried <= |existing|
  {
    var names := seq(tried, k requires 0 <= k => MakeFileName(p, directory, baseName, k, extension).pathname);
    forall a, b | 0 <= a < b < tried
      ensures names[a] != names[b]
    {
      if names[a] == names[b] {
        MakeFileNameInjective(p, directory, baseName, extension, a, b);
      }
    }
    DistinctCount(names);
    SubsetSize(Elements(names), existing);
  }

  /** Stops after at most one more try than there are existing paths, with the name of the
      least number that is free. */
  method GenerateUniqueFileName(p: Platform, directory: FilePath, baseName: FilePath, extension: CString,
                                existing: set<CString>) returns (fullPathname: FilePath, tries: nat)
    ensures 1 <= tries <= |existing| + 1
    ensures fullPathname == MakeFileName(p, directory, baseName, tries - 1, extension)
    ensures fullPathname.pathname !in existing
    ensures forall k: nat | k < tries - 1 :: MakeFileName(p, directory, baseName, k, extension).pathname in existing
    ensures Tidy(p, directory.pathname, baseName.pathname, extension) ==>
              var unnumbered := UnnumberedText(p, directory.pathname, baseName.pathname, extension);
              (tries == 1 <==> unnumbered !in existing) && (tries == 1 ==> fullPathname.pathname == unnumbered)
  {
    ghost var first := MakeFileName(p, directory, baseName, 0, extension).pathname;
    assert Tidy(p, directory.pathname, baseName.pathname, extension) ==>
             UnnumberedText(p, directory.pathname, baseName.pathname, extension) == first by {
      if Tidy(p, directory.pathname, baseName.pathname, extension) {
        UnnumberedName(p, directory, baseName, extension);
      }
    }
    var number := 0;
    while true
      invariant number <= |existing|
      invariant forall k: nat | k < number :: MakeFileName(p, directory, baseName, k, extension).pathname in existing
      decreases |existing| - number
    {
      fullPathname := MakeFileName(p, directory, baseName, number, extension);
      number := number + 1;
      if fullPathname.pathname !in existing {
        return fullPathname, number;
      }
      TakenNamesBound(p, directory, baseName, extension, existing, number);
    }
  }
}
