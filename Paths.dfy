/** The parts of `pathlib.PurePath` the compressor uses, over normalised
    '/'-separated path strings: `name`, `stem`, `suffix`, the parent
    directory, `with_suffix`, `with_stem`, joining, and the `parents`
    membership test. Also the backup naming of documents. */
module Paths {
  import opened Base

  /** Python's `s.rfind(c)`, None for -1. */
  function LastIndex(s: string, c: char): (r: Option<nat>)
    ensures r.Some? ==> r.value < |s| && s[r.value] == c
  {
    if s == [] then None
    else if s[|s| - 1] == c then Some(|s| - 1)
    else LastIndex(s[..|s| - 1], c)
  }

  /** The position found is the last occurrence; no position means no
      occurrence at all. */
  lemma {:induction false} LastIndexSpec(s: string, c: char)
    ensures LastIndex(s, c).Some? ==> forall j :: LastIndex(s, c).value < j < |s| ==> s[j] != c
    ensures LastIndex(s, c).None? ==> Free(s, c)
    decreases |s|
  {
    if s != [] && s[|s| - 1] != c {
      var s' := s[..|s| - 1];
      LastIndexSpec(s', c);
      assert forall j :: 0 <= j < |s'| ==> s'[j] == s[j];
    }
  }

  /** The last occurrence of `c` is the one after which `c` no longer occurs. */
  lemma {:induction false} LastIndexAt(s: string, c: char, i: nat)
    requires i < |s| && s[i] == c
    requires forall j :: i < j < |s| ==> s[j] != c
    ensures LastIndex(s, c) == Some(i)
    decreases |s|
  {
    if i < |s| - 1 {
      LastIndexAt(s[..|s| - 1], c, i);
    }
  }

  lemma {:induction false} LastIndexNone(s: string, c: char)
    requires forall j :: 0 <= j < |s| ==> s[j] != c
    ensures LastIndex(s, c) == None
    decreases |s|
  {
    if s != [] {
      LastIndexNone(s[..|s| - 1], c);
    }
  }

  /** `PurePath.name`: the text after the last separator. */
  function Name(p: string): string
  {
    match LastIndex(p, '/')
    case Some(i) => p[i + 1..]
    case None => p
  }

  /** The directory part of `p`, keeping its trailing separator ("" for a
      bare file name), so that `p == Dir(p) + Name(p)`. */
  function Dir(p: string): string
  {
    match LastIndex(p, '/')
    case Some(i) => p[..i + 1]
    case None => ""
  }

  /** CPython's rule: a suffix starts at the last dot of the name, provided
      that dot is neither the first nor the last character of the name. */
  predicate HasSuffixAt(n: string, i: nat)
  {
    LastIndex(n, '.') == Some(i) && 0 < i < |n| - 1
  }

  /** The suffix of a bare file name. */
  function NameSuffix(n: string): string
  {
    match LastIndex(n, '.')
    case Some(i) => if 0 < i < |n| - 1 then n[i..] else ""
    case None => ""
  }

  /** The stem of a bare file name. */
  function NameStem(n: string): string
  {
    match LastIndex(n, '.')
    case Some(i) => if 0 < i < |n| - 1 then n[..i] else n
    case None => n
  }

  /** `PurePath.suffix`. */
  function Suffix(p: string): string
  {
    NameSuffix(Name(p))
  }

  /** `PurePath.stem`. */
  function Stem(p: string): string
  {
    NameStem(Name(p))
  }

  /** `PurePath.with_suffix(s)`: the stem keeps its place, the suffix is
      replaced (or added). */
  function WithSuffix(p: string, s: string): string
  {
    Dir(p) + Stem(p) + s
  }

  /** `PurePath.with_stem(st)`: `with_name(st + suffix)`. */
  function WithStem(p: string, st: string): string
  {
    Dir(p) + st + Suffix(p)
  }

  /** `Path(base) / p`: an absolute `p` replaces the base. */
  function Join(base: string, p: string): string
  {
    if StartsWith(p, "/") || base == "" then p else base + "/" + p
  }

  /** `Path(folder) in Path(p).parents` for normalised relative paths: `p`
      lies strictly below `folder`. */
  predicate InFolder(folder: string, p: string)
  {
    |folder| > 0 && |p| > |folder| + 1 && StartsWith(p, folder + "/")
  }

  /** `c` does not occur in `s`. */
  predicate Free(s: string, c: char)
  {
    forall j :: 0 <= j < |s| ==> s[j] != c
  }

  /** A file extension that CPython reads back as a whole suffix. */
  predicate PlainExtension(ext: string)
  {
    ext != [] && Free(ext, '.') && Free(ext, '/')
  }

  lemma FreeConcat(a: string, b: string, c: char)
    ensures Free(a + b, c) <==> Free(a, c) && Free(b, c)
  {
    if Free(a, c) && Free(b, c) {
      forall j | 0 <= j < |a + b| ensures (a + b)[j] != c {
        if j < |a| { assert (a + b)[j] == a[j]; } else { assert (a + b)[j] == b[j - |a|]; }
      }
    }
    if Free(a + b, c) {
      forall j | 0 <= j < |a| ensures a[j] != c { assert (a + b)[j] == a[j]; }
      forall j | 0 <= j < |b| ensures b[j] != c { assert (a + b)[|a| + j] == b[j]; }
    }
  }

  // ---------------------------------------------------------------------
  // Decomposition lemmas
  // ---------------------------------------------------------------------

  lemma NameDir(p: string)
    ensures p == Dir(p) + Name(p)
    ensures Free(Name(p), '/')
    ensures Dir(p) == [] || Dir(p)[|Dir(p)| - 1] == '/'
  {
    LastIndexSpec(p, '/');
    match LastIndex(p, '/')
    case Some(i) =>
      assert p == p[..i + 1] + p[i + 1..];
      var n := p[i + 1..];
      forall j | 0 <= j < |n| ensures n[j] != '/' {
        assert n[j] == p[i + 1 + j];
      }
    case None =>
  }

  /** A directory prefix followed by a separator-free name splits back into
      exactly those two parts. */
  lemma {:induction false} SplitDirName(d: string, n: string)
    requires d == [] || d[|d| - 1] == '/'
    requires Free(n, '/')
    ensures Dir(d + n) == d && Name(d + n) == n
  {
    var p := d + n;
    if d == [] {
      assert p == n;
      LastIndexNone(p, '/');
    } else {
      forall j | |d| - 1 < j < |p| ensures p[j] != '/' {
        assert p[j] == n[j - |d|];
      }
      LastIndexAt(p, '/', |d| - 1);
      assert p[..|d|] == d;
      assert p[|d|..] == n;
    }
  }

  /** The last dot of `st + "." + ext` is the one in front of `ext`. */
  lemma DotOfName(st: string, ext: string)
    requires st != [] && PlainExtension(ext)
    ensures HasSuffixAt(st + "." + ext, |st|)
  {
    var n := st + "." + ext;
    forall j | |st| < j < |n| ensures n[j] != '.' {
      assert n[j] == ext[j - |st| - 1];
    }
    LastIndexAt(n, '.', |st|);
  }

  /** A name made of a non-empty stem and a plain extension has exactly that
      stem and suffix. */
  lemma StemSuffixOfName(q: string, d: string, st: string, ext: string)
    requires d == [] || d[|d| - 1] == '/'
    requires st != [] && Free(st, '/')
    requires PlainExtension(ext)
    requires q == d + st + "." + ext
    ensures Dir(q) == d
    ensures Name(q) == st + "." + ext
    ensures Stem(q) == st
    ensures Suffix(q) == "." + ext
  {
    var n := st + "." + ext;
    FreeConcat(st, ".", '/');
    FreeConcat(st + ".", ext, '/');
    assert q == d + n;
    SplitDirName(d, n);
    DotOfName(st, ext);
    AppendAssoc(st, ".", ext);
    SplitAt(st, "." + ext);
  }

  /** At the level of a bare name: a non-empty suffix is a dot followed by
      a dot-free extension, after a non-empty stem. */
  lemma NameSuffixShape(n: string)
    requires NameSuffix(n) != ""
    ensures |NameSuffix(n)| >= 2 && NameSuffix(n)[0] == '.'
    ensures Free(NameSuffix(n)[1..], '.')
    ensures NameStem(n) != []
    ensures n == NameStem(n) + NameSuffix(n)
  {
    LastIndexSpec(n, '.');
    var i := LastIndex(n, '.').value;
    var ext := n[i + 1..];
    assert NameSuffix(n)[1..] == ext;
    forall j | 0 <= j < |ext| ensures ext[j] != '.' {
      assert ext[j] == n[i + 1 + j];
    }
    assert n == n[..i] + n[i..];
  }

  /** A non-empty suffix is a dot followed by a plain extension, and the
      stem in front of it is not empty. */
  lemma SuffixShape(p: string)
    requires Suffix(p) != ""
    ensures Suffix(p)[0] == '.' && PlainExtension(Suffix(p)[1..])
    ensures Stem(p) != [] && Free(Stem(p), '/')
    ensures p == Dir(p) + Stem(p) + Suffix(p)
  {
    var d, n := Dir(p), Name(p);
    NameDir(p);
    NameSuffixShape(n);
    var st, sfx := NameStem(n), NameSuffix(n);
    FreeConcat(st, sfx, '/');
    assert sfx == [sfx[0]] + sfx[1..];
    FreeConcat([sfx[0]], sfx[1..], '/');
    AppendAssoc(d, st, sfx);
  }

  lemma StemNonEmpty(p: string)
    requires Name(p) != []
    ensures Stem(p) != [] && Free(Stem(p), '/')
  {
    NameDir(p);
    var n := Name(p);
    forall j | 0 <= j < |Stem(p)| ensures Stem(p)[j] != '/' {
      assert Stem(p)[j] == n[j];
    }
  }

  /** `with_stem` and `with_suffix` in terms of known parts. */
  lemma Rebuild(p: string, st: string, d: string, sx: string)
    requires Dir(p) == d && Suffix(p) == sx
    ensures WithStem(p, st) == d + st + sx
  {
  }

  lemma Rebuild2(q: string, sx: string, d: string, st: string)
    requires Dir(q) == d && Stem(q) == st
    ensures WithSuffix(q, sx) == d + st + sx
  {
  }

  lemma DotJoin(d: string, st: string, ext: string)
    ensures d + st + ("." + ext) == d + st + "." + ext
  {
  }

  // ---------------------------------------------------------------------
  // Backup naming
  // ---------------------------------------------------------------------

  /** The backup copy of a document: `path.with_suffix(path.suffix + "bak")`. */
  function BackupPath(p: string): string
  {
    WithSuffix(p, Suffix(p) + "bak")
  }

  /** The restore of a backup: `path.with_suffix(path.suffix[:-3])`. */
  function RestorePath(b: string): string
  {
    var s := Suffix(b);
    WithSuffix(b, if |s| >= 3 then s[..|s| - 3] else "")
  }

  /** A path with a suffix is its directory, its stem, a dot and a plain
      extension. */
  lemma PathParts(p: string) returns (ext: string)
    requires Suffix(p) != ""
    ensures PlainExtension(ext) && Suffix(p) == "." + ext
    ensures Stem(p) != [] && Free(Stem(p), '/')
    ensures Dir(p) == [] || Dir(p)[|Dir(p)| - 1] == '/'
    ensures p == Dir(p) + Stem(p) + "." + ext
  {
    SuffixShape(p);
    NameDir(p);
    ext := Suffix(p)[1..];
    Regroup(p, Dir(p), Stem(p), Suffix(p), ext);
  }

  lemma Regroup(p: string, d: string, st: string, sfx: string, ext: string)
    requires p == d + st + sfx
    requires sfx != [] && sfx[0] == '.' && ext == sfx[1..]
    ensures sfx == "." + ext
    ensures p == d + st + "." + ext
  {
    assert sfx == "." + ext;
  }

  /** Restoring a backup gives back the document it was made from, and the
      backup never overwrites the document itself. */
  lemma BackupRoundTrip(p: string)
    requires Suffix(p) != ""
    ensures RestorePath(BackupPath(p)) == p
    ensures BackupPath(p) != p
    ensures Dir(BackupPath(p)) == Dir(p)
  {
    var ext := PathParts(p);
    var d, st := Dir(p), Stem(p);
    FreeConcat(ext, "bak", '.');
    FreeConcat(ext, "bak", '/');
    var b := BackupPath(p);
    Rebuild2(p, Suffix(p) + "bak", d, st);
    BackupText(b, d, st, ext);
    StemSuffixOfName(b, d, st, ext + "bak");
    RestoreOf(b, d, st, "." + (ext + "bak"));
    DotJoin(d, st, ext);
  }

  lemma RestoreOf(b: string, d: string, st: string, sx: string)
    requires Dir(b) == d && Stem(b) == st && Suffix(b) == sx
    ensures RestorePath(b) == d + st + (if |sx| >= 3 then sx[..|sx| - 3] else "")
  {
  }

  /** The text of a backup name, and of the suffix its restore keeps. */
  lemma BackupText(b: string, d: string, st: string, ext: string)
    requires b == d + st + ("." + ext + "bak")
    ensures b == d + st + "." + (ext + "bak")
    ensures ("." + (ext + "bak"))[..|"." + (ext + "bak")| - 3] == "." + ext
    ensures |b| == |d + st + "." + ext| + 3
  {
    assert "." + ext + "bak" == "." + (ext + "bak");
    assert ("." + (ext + "bak"))[..|ext| + 1] == "." + ext;
  }
}
