/** `find_filename_that_doesnt_exist_yet`: the search for a free file name
    that keeps a path's directory and stem, takes the requested suffix, and
    appends underscores to the stem until the name is not taken. */
module Naming {
  import opened Base
  import opened Paths

  function Underscores(k: nat): string
  {
    seq(k, _ => '_')
  }

  /** The path without its suffix: directory and stem. */
  function BaseName(filePath: string): string
  {
    Dir(filePath) + Stem(filePath)
  }

  /** The k-th name the search tries from `base`. */
  function Candidate(base: string, sfx: string, k: nat): string
  {
    base + Underscores(k) + sfx
  }

  /** The length of the longest existing name: the search only ever tries
      longer and longer names, so it must stop once it passes this. */
  ghost function Longest(existing: set<string>): (r: nat)
    ensures forall f | f in existing :: |f| <= r
  {
    if existing == {} then 0
    else
      var f :| f in existing;
      var rest := Longest(existing - {f});
      if |f| > rest then |f| else rest
  }

  /** A suffix `with_suffix` accepts and reads back whole: a dot and a plain
      extension. */
  predicate GoodSuffix(sfx: string)
  {
    |sfx| > 1 && sfx[0] == '.' && PlainExtension(sfx[1..])
  }

  /** Python's recursion: take `file_path.with_suffix(suffix)`; if that file
      exists, try again from that path with one more underscore on its stem.
      The result is free, carries the requested suffix, stays in the same
      directory, and is the first free name among base + k underscores. */
  function FindFilenameThatDoesntExistYet(existing: set<string>, filePath: string, sfx: string): (r: string)
    requires Name(filePath) != [] && GoodSuffix(sfx)
    ensures r !in existing
    ensures Suffix(r) == sfx && Dir(r) == Dir(filePath)
    ensures exists k: nat ::
      && r == Candidate(BaseName(filePath), sfx, k)
      && forall j: nat | j < k :: Candidate(BaseName(filePath), sfx, j) in existing
    decreases Longest(existing) + 1 - (|BaseName(filePath)| + |sfx|)
  {
    var path := WithSuffix(filePath, sfx);
    Step(filePath, sfx);
    if path in existing then
      var next := WithStem(path, Stem(path) + "_");
      var r := FindFilenameThatDoesntExistYet(existing, next, sfx);
      Shifted(BaseName(filePath), sfx, existing, r);
      r
    else
      assert path == Candidate(BaseName(filePath), sfx, 0);
      path
  }

  /** One step of the search: `with_suffix` gives the base followed by the
      suffix, read back with the same directory and suffix; `with_stem(stem +
      "_")` on it gives a path whose base has one more underscore. */
  lemma Step(filePath: string, sfx: string)
    requires Name(filePath) != [] && GoodSuffix(sfx)
    ensures var path := WithSuffix(filePath, sfx);
      var next := WithStem(path, Stem(path) + "_");
      && path == BaseName(filePath) + sfx
      && Dir(path) == Dir(filePath) && Suffix(path) == sfx
      && Name(next) != [] && Dir(next) == Dir(filePath)
      && BaseName(next) == BaseName(filePath) + "_"
  {
    var d, st, ext := Parts(filePath, sfx);
    var path := WithSuffix(filePath, sfx);
    StemSuffixOfName(path, d, st, ext);
    var st' := st + "_";
    FreeConcat(st, "_", '/');
    var next := WithStem(path, st');
    Rebuild(path, st', d, sfx);
    DotJoin(d, st', ext);
    StemSuffixOfName(next, d, st', ext);
    Regroup(d, st, sfx);
  }

  lemma Regroup(d: string, st: string, sfx: string)
    ensures d + st + sfx == (d + st) + sfx
    ensures d + (st + "_") == (d + st) + "_"
  {
  }

  /** The parts `with_suffix` works with. */
  lemma Parts(filePath: string, sfx: string) returns (d: string, st: string, ext: string)
    requires Name(filePath) != [] && GoodSuffix(sfx)
    ensures d == Dir(filePath) && st == Stem(filePath) && sfx == "." + ext
    ensures d == [] || d[|d| - 1] == '/'
    ensures st != [] && Free(st, '/') && PlainExtension(ext)
    ensures WithSuffix(filePath, sfx) == d + st + "." + ext
  {
    d, st := Dir(filePath), Stem(filePath);
    ext := sfx[1..];
    NameDir(filePath);
    StemNonEmpty(filePath);
    Rebuild2(filePath, sfx, d, st);
    assert sfx == "." + ext;
    DotJoin(d, st, ext);
  }

  /** The contract of the recursive call, carried back one step: the
      candidates from `base + "_"` are those from `base`, shifted by one. */
  lemma Shifted(base: string, sfx: string, existing: set<string>, r: string)
    requires base + sfx in existing
    requires exists k: nat ::
      && r == Candidate(base + "_", sfx, k)
      && forall j: nat | j < k :: Candidate(base + "_", sfx, j) in existing
    ensures exists k: nat ::
      && r == Candidate(base, sfx, k)
      && forall j: nat | j < k :: Candidate(base, sfx, j) in existing
  {
    var k: nat :| r == Candidate(base + "_", sfx, k)
      && forall j: nat | j < k :: Candidate(base + "_", sfx, j) in existing;
    assert r == Candidate(base, sfx, k + 1) by {
      assert base + "_" + Underscores(k) == base + Underscores(k + 1);
    }
    forall j: nat | j < k + 1 ensures Candidate(base, sfx, j) in existing {
      if j == 0 {
        assert Candidate(base, sfx, 0) == base + sfx;
      } else {
        assert Candidate(base, sfx, j) == Candidate(base + "_", sfx, j - 1) by {
          assert base + "_" + Underscores(j - 1) == base + Underscores(j);
        }
      }
    }
  }
}
