/** The repair passes of `WorldRefs`, each as a function from the state
    before to the run it produces: the extension fix, the consolidation of a
    set of duplicated images, the conversion to `.webp`, the move of the
    trash queue into `_trash`, and the two passes over broken and unused
    images. */
module Repairs {
  import opened Base
  import opened Paths
  import opened Refs
  import opened Docs
  import opened Grouping
  import opened Naming
  import opened Classify
  import opened Passes

  /** The files on disk never lose a file or a byte: at most new files
      appear. */
  predicate Grows(before: Disk, after: Disk)
  {
    forall k | k in before :: k in after && after[k] == before[k]
  }

  // ---------------------------------------------------------------------
  // fix_incorrect_file_extensions
  // ---------------------------------------------------------------------

  /** `f".{img_encoding}"`: an unknown encoding prints as `None`. */
  function ExtSuffix(f: Facts): string
  {
    "." + PathText(f.encoding)
  }

  /** The name the image is copied to:
      `find_filename_that_doesnt_exist_yet(Path(ref_path), suffix)`, or None
      where `with_suffix` raises. */
  function ExtTarget(s: State, f: Facts): (t: Option<string>)
    ensures t.Some? ==> t.value !in s.disk && Suffix(t.value) == ExtSuffix(f) && Dir(t.value) == Dir(f.refPath)
  {
    if Name(f.refPath) != [] && GoodSuffix(ExtSuffix(f)) then
      Some(FindFilenameThatDoesntExistYet(s.disk.Keys, f.refPath, ExtSuffix(f)))
    else None
  }

  /** The images the fix renames: found on disk, inside the world folder,
      and known to carry the wrong extension. */
  predicate NeedsExtFix(f: Facts)
  {
    f.pathOnDisk.Some? && f.inWorld && f.correctExtension == Some(false)
  }

  /** The test as written, `not temp_ref.correct_extension`: it also fires
      when the encoding is unknown and the verdict is None. */
  predicate NeedsExtFixAsWritten(f: Facts)
  {
    f.pathOnDisk.Some? && f.inWorld && f.correctExtension != Some(true)
  }

  /** The extension fix for the references `items` that share one path, as
      intended: the image is copied to a free name carrying its encoding as
      suffix, and each reference has the old path replaced by the new one in
      its own content. The first reference decides; reading its content,
      naming the copy and copying may raise before anything changes. */
  function ExtStep(c: Config, s: State, items: seq<nat>): (r: Run)
    requires items != [] && Bounded(items, |s.refs|)
    ensures |r.state.refs| == |s.refs| && r.state.trash == s.trash && Grows(s.disk, r.state.disk)
  {
    var ref := s.refs[items[0]];
    var f := ref.facts;
    var p := f.refPath;
    if !NeedsExtFix(f) then Run(s, true)
    else if Content(s.docs, ref).None? || ExtTarget(s, f).None? || p !in s.disk then Run(s, false)
    else
      var t := ExtTarget(s, f).value;
      ApplyAll(c, s.(disk := s.disk[t := s.disk[p]]), items, |items|, Rename(p, t))
  }

  /** The extension fix as written: the new content is computed once, from
      the first reference, and pushed to every reference of the path. */
  function ExtStepAsWritten(c: Config, s: State, items: seq<nat>): (r: Run)
    requires items != [] && Bounded(items, |s.refs|)
    ensures |r.state.refs| == |s.refs| && r.state.trash == s.trash && Grows(s.disk, r.state.disk)
  {
    var ref := s.refs[items[0]];
    var f := ref.facts;
    var p := f.refPath;
    if !NeedsExtFixAsWritten(f) then Run(s, true)
    else if Content(s.docs, ref).None? || ExtTarget(s, f).None? || p !in s.disk then Run(s, false)
    else
      var t := ExtTarget(s, f).value;
      var text := ReplaceAll(Content(s.docs, ref).value, p, t);
      ApplyAll(c, s.(disk := s.disk[t := s.disk[p]]), items, |items|, Overwrite(t, text))
  }

  /** Entries of the index by path, each with at least one position. */
  predicate Buckets(bs: seq<Bucket<string>>, n: nat)
  {
    forall i | 0 <= i < |bs| :: bs[i].items != [] && Bounded(bs[i].items, n)
  }

  /** `fix_incorrect_file_extensions`: the fix for each entry of the index by
      path, in order, stopping at the first exception. No file is ever
      overwritten or removed, and the trash queue is untouched. */
  function ExtPass(c: Config, s: State, bs: seq<Bucket<string>>, n: nat): (r: Run)
    requires n <= |bs| && Buckets(bs, |s.refs|)
    ensures |r.state.refs| == |s.refs| && r.state.trash == s.trash && Grows(s.disk, r.state.disk)
    decreases n
  {
    if n == 0 then Run(s, true)
    else
      var m := ExtPass(c, s, bs, n - 1);
      if !m.ok then m else ExtStep(c, m.state, bs[n - 1].items)
  }

  /** One more path of the pass, once the earlier ones went through. */
  lemma ExtPassNext(c: Config, s: State, bs: seq<Bucket<string>>, n: nat)
    requires n < |bs| && Buckets(bs, |s.refs|) && ExtPass(c, s, bs, n).ok
    ensures ExtPass(c, s, bs, n + 1) == ExtStep(c, ExtPass(c, s, bs, n).state, bs[n].items)
  {
  }

  /** An exception ends the pass. */
  lemma {:induction false} ExtPassStops(c: Config, s: State, bs: seq<Bucket<string>>, n: nat, m: nat)
    requires n <= m <= |bs| && Buckets(bs, |s.refs|) && !ExtPass(c, s, bs, n).ok
    ensures ExtPass(c, s, bs, m) == ExtPass(c, s, bs, n)
    decreases m
  {
    if m > n {
      ExtPassStops(c, s, bs, n, m - 1);
    }
  }

  /** Every entry of the index by path holds at least one reference. */
  lemma ByImgBuckets(refs: seq<Ref>)
    ensures Buckets(ByImg(refs), |refs|)
  {
    ByImgPartition(refs);
    var g := ByImg(refs);
    forall i | 0 <= i < |g| ensures g[i].items != [] && Bounded(g[i].items, |refs|) {
      assert g[i] in g;
    }
  }

  /** `fix_incorrect_file_extensions()`: the pass over the index by path of
      the references as they are when it starts. */
  function FixIncorrectFileExtensions(c: Config, s: State): (r: Run)
    ensures |r.state.refs| == |s.refs| && r.state.trash == s.trash && Grows(s.disk, r.state.disk)
  {
    ByImgBuckets(s.refs);
    ExtPass(c, s, ByImg(s.refs), |ByImg(s.refs)|)
  }

  /** What a finished fix did to an image with the wrong extension: the
      image was copied to a fresh name with the right suffix, every
      reference of the path is resolved again at that name and holds its
      own content with the old path replaced, and no other reference
      changed. */
  lemma ExtStepEffect(c: Config, s: State, items: seq<nat>)
    requires items != [] && Bounded(items, |s.refs|) && Separate(s, items)
    requires NeedsExtFix(s.refs[items[0]].facts) && ExtStep(c, s, items).ok
    ensures var f := s.refs[items[0]].facts; var p := f.refPath;
      var r := ExtStep(c, s, items).state;
      && ExtTarget(s, f).Some? && p in s.disk
      && var t := ExtTarget(s, f).value;
      && t !in s.disk && Suffix(t) == ExtSuffix(f)
      && r.disk == s.disk[t := s.disk[p]]
      && (forall k | 0 <= k < |items| ::
            var ref := s.refs[items[k]];
            && r.refs[items[k]] == ref.(facts := Resolve(c, r.disk, ref.facts, t))
            && Content(s.docs, ref).Some?
            && Content(r.docs, ref) == Some(ReplaceAll(Content(s.docs, ref).value, p, t)))
      && (forall j | 0 <= j < |s.refs| && j !in items :: r.refs[j] == s.refs[j])
  {
    var f := s.refs[items[0]].facts;
    var p := f.refPath;
    ExtStepUnfold(c, s, items);
    var t := ExtTarget(s, f).value;
    var s' := s.(disk := s.disk[t := s.disk[p]]);
    SeparateOnAnyDisk(s, s'.disk, items);
    RenameAllEffect(c, s', items, p, t);
  }

  /** The fix, once it acts and finishes, is the rename over the copy. */
  lemma ExtStepUnfold(c: Config, s: State, items: seq<nat>)
    requires items != [] && Bounded(items, |s.refs|)
    requires NeedsExtFix(s.refs[items[0]].facts) && ExtStep(c, s, items).ok
    ensures var f := s.refs[items[0]].facts; var p := f.refPath;
      && Content(s.docs, s.refs[items[0]]).Some? && ExtTarget(s, f).Some? && p in s.disk
      && ExtStep(c, s, items)
         == ApplyAll(c, s.(disk := s.disk[ExtTarget(s, f).value := s.disk[p]]), items, |items|, Rename(p, ExtTarget(s, f).value))
  {
  }

  /** The same action as written, once it acts and finishes. */
  lemma ExtStepAsWrittenUnfold(c: Config, s: State, items: seq<nat>)
    requires items != [] && Bounded(items, |s.refs|)
    requires NeedsExtFixAsWritten(s.refs[items[0]].facts) && ExtStepAsWritten(c, s, items).ok
    ensures var f := s.refs[items[0]].facts; var p := f.refPath;
      && Content(s.docs, s.refs[items[0]]).Some? && ExtTarget(s, f).Some? && p in s.disk
      && var t := ExtTarget(s, f).value;
      && ExtStepAsWritten(c, s, items)
         == ApplyAll(c, s.(disk := s.disk[t := s.disk[p]]), items, |items|,
                     Overwrite(t, ReplaceAll(Content(s.docs, s.refs[items[0]]).value, p, t)))
  {
  }

  /** Whether references sit at independent leaves does not depend on the
      files on disk. */
  lemma SeparateOnAnyDisk(s: State, d: Disk, ps: seq<nat>)
    requires Bounded(ps, |s.refs|) && Separate(s, ps)
    ensures Separate(s.(disk := d), ps)
  {
    var s' := s.(disk := d);
    assert s'.docs == s.docs && s'.refs == s.refs;
  }

  /** After the fix, every reference of the path finds the copy and its
      extension is correct, provided the encoding was sniffed from the bytes
      (a guess from the old name would be asked again of the new one). */
  lemma ExtFixCorrects(c: Config, s: State, items: seq<nat>)
    requires items != [] && Bounded(items, |s.refs|) && Separate(s, items)
    requires NeedsExtFix(s.refs[items[0]].facts) && ExtStep(c, s, items).ok
    requires var f := s.refs[items[0]].facts;
      f.refPath in s.disk && c.sniff(s.disk[f.refPath]).Some? && f.encoding == Encoding(c, s.disk, f.refPath)
    ensures var f := s.refs[items[0]].facts; var r := ExtStep(c, s, items).state;
      forall k | 0 <= k < |items| ::
        && r.refs[items[k]].facts.pathOnDisk == ExtTarget(s, f)
        && r.refs[items[k]].facts.correctExtension == Some(true)
  {
    ExtStepEffect(c, s, items);
    var f := s.refs[items[0]].facts;
    var p := f.refPath;
    var t := ExtTarget(s, f).value;
    var r := ExtStep(c, s, items).state;
    var enc := f.encoding.value;
    assert Encoding(c, r.disk, t) == f.encoding by {
      assert r.disk[t] == s.disk[p];
    }
    assert Drop1(Suffix(t)) == enc;
    ExtensionRule(enc, enc);
    forall k | 0 <= k < |items|
      ensures r.refs[items[k]].facts.pathOnDisk == Some(t)
      ensures r.refs[items[k]].facts.correctExtension == Some(true)
    {
      assert Candidates(c, t)[0] == t;
    }
  }

  /** The fix as written gives every reference of the path the text of the
      first one: a reference elsewhere loses its own content. */
  lemma ExtAsWrittenCopiesFirst(c: Config, s: State, items: seq<nat>)
    requires items != [] && Bounded(items, |s.refs|) && Separate(s, items)
    requires NeedsExtFixAsWritten(s.refs[items[0]].facts) && ExtStepAsWritten(c, s, items).ok
    ensures var first := s.refs[items[0]]; var p := first.facts.refPath;
      var r := ExtStepAsWritten(c, s, items).state;
      && Content(s.docs, first).Some? && ExtTarget(s, first.facts).Some?
      && forall k | 0 <= k < |items| ::
           Content(r.docs, s.refs[items[k]])
             == Some(ReplaceAll(Content(s.docs, first).value, p, ExtTarget(s, first.facts).value))
  {
    var first := s.refs[items[0]];
    var p := first.facts.refPath;
    ExtStepAsWrittenUnfold(c, s, items);
    var t := ExtTarget(s, first.facts).value;
    var text := ReplaceAll(Content(s.docs, first).value, p, t);
    var s' := s.(disk := s.disk[t := s.disk[p]]);
    var r := ApplyAll(c, s', items, |items|, Overwrite(t, text)).state;
    assert ExtStepAsWritten(c, s, items).state == r;
    SeparateOnAnyDisk(s, s'.disk, items);
    ApplyAllEffect(c, s', items, |items|, Overwrite(t, text));
    OverwroteAll(c, s', items, t, text, r);
  }

  /** The fix as written also fires when the encoding is unknown, and then
      copies the image to a name ending in `.None`. */
  lemma ExtAsWrittenNoneSuffix(c: Config, s: State, items: seq<nat>)
    requires items != [] && Bounded(items, |s.refs|)
    requires var f := s.refs[items[0]].facts;
      f.pathOnDisk.Some? && f.inWorld && f.encoding.None? && f.correctExtension.None?
    requires ExtStepAsWritten(c, s, items).ok
    ensures var f := s.refs[items[0]].facts;
      && ExtTarget(s, f).Some?
      && Suffix(ExtTarget(s, f).value) == ".None"
      && ExtStepAsWritten(c, s, items).state.disk[ExtTarget(s, f).value] == s.disk[f.refPath]
  {
    ExtStepAsWrittenUnfold(c, s, items);
    var f := s.refs[items[0]].facts;
    var p := f.refPath;
    var t := ExtTarget(s, f).value;
    NoneSuffix(f);
    var r := ApplyAll(c, s.(disk := s.disk[t := s.disk[p]]), items, |items|,
                      Overwrite(t, ReplaceAll(Content(s.docs, s.refs[items[0]]).value, p, t)));
    assert r.state.disk == s.disk[t := s.disk[p]];
  }

  lemma NoneSuffix(f: Facts)
    requires f.encoding.None?
    ensures ExtSuffix(f) == ".None"
  {
  }

  /** The intended fix leaves an image of unknown encoding alone. */
  lemma ExtSkipsUnknown(c: Config, s: State, items: seq<nat>)
    requires items != [] && Bounded(items, |s.refs|)
    requires s.refs[items[0]].facts.correctExtension != Some(false)
    ensures ExtStep(c, s, items) == Run(s, true)
  {
  }

  // ---------------------------------------------------------------------
  // fix_one_set_of_duplicated_images
  // ---------------------------------------------------------------------

  predicate Sets(inner: seq<Bucket<string>>, n: nat)
  {
    forall k | 0 <= k < |inner| :: Bounded(inner[k].items, n)
  }

  /** `fix_one_set_of_duplicated_images(inner)`: the first path is the main
      image; every reference under another path has that path replaced by
      the main one and is resolved there, and the other path is queued for
      the trash. An empty dict raises at once. */
  function FixOneSet(c: Config, s: State, inner: seq<Bucket<string>>): (r: Run)
    requires Sets(inner, |s.refs|)
    ensures |r.state.refs| == |s.refs| && r.state.disk == s.disk && s.trash <= r.state.trash
  {
    if inner == [] then Run(s, false) else Redirects(c, s, inner, |inner|)
  }

  /** The loop over the non-first paths `inner[1..n]`. */
  function Redirects(c: Config, s: State, inner: seq<Bucket<string>>, n: nat): (r: Run)
    requires 1 <= n <= |inner| && Sets(inner, |s.refs|)
    ensures |r.state.refs| == |s.refs| && r.state.disk == s.disk && s.trash <= r.state.trash
    decreases n
  {
    if n == 1 then Run(s, true)
    else
      var m := Redirects(c, s, inner, n - 1);
      if !m.ok then m else RedirectStep(c, m.state, inner[0].key, inner[n - 1])
  }

  /** One non-first path `b.key` of the set: its references are pointed at
      `main`, then the path is queued for the trash. */
  function RedirectStep(c: Config, s: State, main: string, b: Bucket<string>): (r: Run)
    requires Bounded(b.items, |s.refs|)
    ensures |r.state.refs| == |s.refs| && r.state.disk == s.disk
    ensures r.ok ==> r.state.trash == s.trash + {b.key}
    ensures r.ok ==> r.state.refs == ApplyAll(c, s, b.items, |b.items|, Redirect(main)).state.refs
    ensures !r.ok ==> r == ApplyAll(c, s, b.items, |b.items|, Redirect(main))
  {
    var a := ApplyAll(c, s, b.items, |b.items|, Redirect(main));
    if !a.ok then a else Run(a.state.(trash := a.state.trash + {b.key}), true)
  }

  /** One more path of the set, once the earlier ones went through. */
  lemma RedirectsNext(c: Config, s: State, inner: seq<Bucket<string>>, n: nat)
    requires 1 <= n < |inner| && Sets(inner, |s.refs|) && Redirects(c, s, inner, n).ok
    ensures Redirects(c, s, inner, n + 1) == RedirectStep(c, Redirects(c, s, inner, n).state, inner[0].key, inner[n])
  {
  }

  /** The positions under the non-first paths of `inner[..n]`. */
  ghost predicate Replaced(inner: seq<Bucket<string>>, n: nat, j: nat)
    requires n <= |inner|
  {
    exists k | 1 <= k < n :: j in inner[k].items
  }

  /** An exception ends the loop over the paths. */
  lemma {:induction false} RedirectsStops(c: Config, s: State, inner: seq<Bucket<string>>, n: nat, m: nat)
    requires 1 <= n <= m <= |inner| && Sets(inner, |s.refs|) && !Redirects(c, s, inner, n).ok
    ensures Redirects(c, s, inner, m) == Redirects(c, s, inner, n)
    decreases m
  {
    if m > n {
      RedirectsStops(c, s, inner, n, m - 1);
    }
  }

  /** Every reference under a non-first path of `inner[..n]` points at the
      main image `inner[0].key` and is found where that image is; every
      other reference is as it was in `s`. */
  ghost predicate Redirected(c: Config, s: State, r: State, inner: seq<Bucket<string>>, n: nat)
    requires 1 <= n <= |inner| && |r.refs| == |s.refs|
  {
    && (forall j | 0 <= j < |s.refs| && Replaced(inner, n, j) ::
          && r.refs[j].facts.refPath == inner[0].key
          && r.refs[j].facts.pathOnDisk == Locate(c, s.disk, inner[0].key))
    && (forall j | 0 <= j < |s.refs| && !Replaced(inner, n, j) :: r.refs[j] == s.refs[j])
  }

  /** The non-first paths of `inner[..n]`. */
  function Secondary(inner: seq<Bucket<string>>, n: nat): (r: set<string>)
    requires n <= |inner|
    ensures forall k | 1 <= k < n :: inner[k].key in r
  {
    set k | 1 <= k < n :: inner[k].key
  }

  lemma SecondaryNext(inner: seq<Bucket<string>>, n: nat)
    requires 1 <= n < |inner|
    ensures Secondary(inner, n + 1) == Secondary(inner, n) + {inner[n].key}
  {
    forall x | x in Secondary(inner, n + 1) ensures x in Secondary(inner, n) + {inner[n].key} {
      var k :| 1 <= k < n + 1 && inner[k].key == x;
    }
  }

  lemma RedirectsTrashStep(c: Config, s: State, inner: seq<Bucket<string>>, n: nat)
    requires 1 < n <= |inner| && Sets(inner, |s.refs|) && Redirects(c, s, inner, n).ok
    requires Redirects(c, s, inner, n - 1).state.trash == s.trash + Secondary(inner, n - 1)
    ensures Redirects(c, s, inner, n).state.trash == s.trash + Secondary(inner, n)
  {
    RedirectsNext(c, s, inner, n - 1);
    SecondaryNext(inner, n - 1);
  }

  /** Redirecting the references under one more path `inner[n - 1]`
      extends `Redirected` from `n - 1` paths to `n`. */
  lemma RedirectedGrows(c: Config, s: State, m: State, r: State, inner: seq<Bucket<string>>, n: nat, b: Bucket<string>)
    requires 1 < n <= |inner| && b == inner[n - 1] && |m.refs| == |s.refs| == |r.refs|
    requires Redirected(c, s, m, inner, n - 1)
    requires forall j | 0 <= j < |m.refs| && j !in b.items :: r.refs[j] == m.refs[j]
    requires forall t | 0 <= t < |b.items| && b.items[t] < |r.refs| ::
      && r.refs[b.items[t]].facts.refPath == inner[0].key
      && r.refs[b.items[t]].facts.pathOnDisk == Locate(c, s.disk, inner[0].key)
    ensures Redirected(c, s, r, inner, n)
  {
    forall j | 0 <= j < |s.refs| && Replaced(inner, n, j)
      ensures r.refs[j].facts.refPath == inner[0].key
      ensures r.refs[j].facts.pathOnDisk == Locate(c, s.disk, inner[0].key)
    {
      if j !in b.items {
        var k :| 1 <= k < n && j in inner[k].items;
        assert Replaced(inner, n - 1, j);
      } else {
        var t :| 0 <= t < |b.items| && b.items[t] == j;
      }
    }
    forall j | 0 <= j < |s.refs| && !Replaced(inner, n, j) ensures r.refs[j] == s.refs[j] {
      assert j !in b.items;
      assert !Replaced(inner, n - 1, j);
    }
  }

  lemma RedirectsRefsStep(c: Config, s: State, inner: seq<Bucket<string>>, n: nat)
    requires 1 < n <= |inner| && Sets(inner, |s.refs|) && Redirects(c, s, inner, n).ok
    requires Redirected(c, s, Redirects(c, s, inner, n - 1).state, inner, n - 1)
    ensures Redirected(c, s, Redirects(c, s, inner, n).state, inner, n)
  {
    var m := Redirects(c, s, inner, n - 1).state;
    var b := inner[n - 1];
    var a := Redirect(inner[0].key);
    RedirectsNext(c, s, inner, n - 1);
    assert b.items[..|b.items|] == b.items;
    ApplyAllFrame(c, m, b.items, |b.items|, a);
    ApplyAllRetargets(c, m, b.items, |b.items|, a);
    var r := Redirects(c, s, inner, n).state;
    assert r.refs == ApplyAll(c, m, b.items, |b.items|, a).state.refs;
    RedirectedGrows(c, s, m, r, inner, n, b);
  }

  /** A finished consolidation queued exactly the non-first paths, left
      every reference under them at the main image, and changed no other
      reference. */
  lemma {:induction false} RedirectsEffect(c: Config, s: State, inner: seq<Bucket<string>>, n: nat)
    requires 1 <= n <= |inner| && Sets(inner, |s.refs|) && Redirects(c, s, inner, n).ok
    ensures var r := Redirects(c, s, inner, n).state;
      && r.trash == s.trash + Secondary(inner, n)
      && Redirected(c, s, r, inner, n)
    decreases n
  {
    if n > 1 {
      assert Redirects(c, s, inner, n - 1).ok;
      RedirectsEffect(c, s, inner, n - 1);
      RedirectsTrashStep(c, s, inner, n);
      RedirectsRefsStep(c, s, inner, n);
    }
  }

  /** After a consolidation `s` to `r`: every reference under a non-first
      path of `inner` points at the main image `inner[0].key` and is found
      where that image is, and the references under the main image are
      untouched. */
  ghost predicate Consolidated(c: Config, s: State, r: State, inner: seq<Bucket<string>>)
    requires inner != [] && Sets(inner, |s.refs|) && |r.refs| == |s.refs|
  {
    && (forall k, t | 1 <= k < |inner| && 0 <= t < |inner[k].items| ::
          && r.refs[inner[k].items[t]].facts.refPath == inner[0].key
          && r.refs[inner[k].items[t]].facts.pathOnDisk == Locate(c, s.disk, inner[0].key))
    && (forall t | 0 <= t < |inner[0].items| :: r.refs[inner[0].items[t]] == s.refs[inner[0].items[t]])
  }

  /** The consolidation of a set taken from the hash index: the non-first
      paths are queued, their references point at the main image, and the
      references under the main image are untouched. */
  lemma FixOneSetEffect(c: Config, s: State, inner: seq<Bucket<string>>, items: seq<nat>)
    requires Sets(inner, |s.refs|) && Partition(inner, RefPaths(s.refs), items)
    requires FixOneSet(c, s, inner).ok
    ensures inner != []
    ensures var r := FixOneSet(c, s, inner).state;
      && r.trash == s.trash + Secondary(inner, |inner|)
      && Consolidated(c, s, r, inner)
  {
    RedirectsEffect(c, s, inner, |inner|);
    var r := FixOneSet(c, s, inner).state;
    forall k, t | 1 <= k < |inner| && 0 <= t < |inner[k].items|
      ensures r.refs[inner[k].items[t]].facts.refPath == inner[0].key
      ensures r.refs[inner[k].items[t]].facts.pathOnDisk == Locate(c, s.disk, inner[0].key)
    {
      assert Replaced(inner, |inner|, inner[k].items[t]);
    }
    forall t | 0 <= t < |inner[0].items| ensures r.refs[inner[0].items[t]] == s.refs[inner[0].items[t]] {
      MainNotReplaced(inner, RefPaths(s.refs), items, inner[0].items[t]);
    }
  }

  lemma MainNotReplaced(inner: seq<Bucket<string>>, keys: seq<string>, items: seq<nat>, p: nat)
    requires inner != [] && Partition(inner, keys, items) && p in inner[0].items
    ensures !Replaced(inner, |inner|, p)
  {
    PlacedKey(inner, keys, items, 0, p);
    PartitionPlace(inner, keys, items, p);
    assert DistinctKeys(inner);
  }

  // ---------------------------------------------------------------------
  // update_one_ref_to_webp, convert_all_images_to_webp_and_update_refs
  // ---------------------------------------------------------------------

  /** One run of the encoder from `src` to `w`: the files afterwards and the
      exit code. */
  function Encode(c: Config, disk: Disk, src: string, w: string): (Disk, int)
  {
    var e := c.encode(if src in disk then Some(disk[src]) else None);
    (if e.output.Some? then disk[w := e.output.value] else disk, e.code)
  }

  /** The images the conversion works on: not already `.webp`, found on
      disk, inside the world folder. */
  predicate NeedsWebp(f: Facts)
  {
    !f.isWebp && f.pathOnDisk.Some? && f.inWorld
  }

  /** The files and exit code after the `.webp` copy is ensured: an
      existing copy is reused with exit code 0, otherwise the encoder runs
      from the file on disk. */
  function WebpOutcome(c: Config, disk: Disk, f: Facts): (Disk, int)
    requires NeedsWebp(f) && f.webpPath.Some?
  {
    var w := f.webpPath.value;
    if w in disk then (disk, 0) else Encode(c, disk, f.pathOnDisk.value, w)
  }

  /** The body of the conversion loop for the path `path` and its
      references `items`: when the copy exists afterwards and the encoder
      reported success, every reference is pointed to its `.webp` sibling;
      the path is queued for the trash whether or not that happened. */
  function WebpStep(c: Config, s: State, path: string, items: seq<nat>): (r: Run)
    requires items != [] && Bounded(items, |s.refs|)
    ensures |r.state.refs| == |s.refs| && s.trash <= r.state.trash
  {
    var f := s.refs[items[0]].facts;
    if !NeedsWebp(f) then Run(s, true)
    else if f.webpPath.None? then Run(s, false)
    else
      var (disk', code) := WebpOutcome(c, s.disk, f);
      var s' := s.(disk := disk');
      var m := if code == 0 && f.webpPath.value in disk' then ApplyAll(c, s', items, |items|, ToWebp) else Run(s', true);
      if !m.ok then m else Run(m.state.(trash := m.state.trash + {path}), true)
  }

  /** `convert_all_images_to_webp_and_update_refs`: the conversion for each
      entry of the index by path, in order. */
  function WebpPass(c: Config, s: State, bs: seq<Bucket<string>>, n: nat): (r: Run)
    requires n <= |bs| && Buckets(bs, |s.refs|)
    ensures |r.state.refs| == |s.refs| && s.trash <= r.state.trash
    decreases n
  {
    if n == 0 then Run(s, true)
    else
      var m := WebpPass(c, s, bs, n - 1);
      if !m.ok then m else WebpStep(c, m.state, bs[n - 1].key, bs[n - 1].items)
  }

  /** One more path of the pass, once the earlier ones went through. */
  lemma WebpPassNext(c: Config, s: State, bs: seq<Bucket<string>>, n: nat)
    requires n < |bs| && Buckets(bs, |s.refs|) && WebpPass(c, s, bs, n).ok
    ensures WebpPass(c, s, bs, n + 1) == WebpStep(c, WebpPass(c, s, bs, n).state, bs[n].key, bs[n].items)
  {
  }

  /** An exception ends the conversion pass. */
  lemma {:induction false} WebpPassStops(c: Config, s: State, bs: seq<Bucket<string>>, n: nat, m: nat)
    requires n <= m <= |bs| && Buckets(bs, |s.refs|) && !WebpPass(c, s, bs, n).ok
    ensures WebpPass(c, s, bs, m) == WebpPass(c, s, bs, n)
    decreases m
  {
    if m > n {
      WebpPassStops(c, s, bs, n, m - 1);
    }
  }

  /** `convert_all_images_to_webp_and_update_refs()`: the conversion over the
      index by path of the references as they are when it starts. */
  function ConvertAllImagesToWebp(c: Config, s: State): (r: Run)
    ensures |r.state.refs| == |s.refs| && s.trash <= r.state.trash
  {
    ByImgBuckets(s.refs);
    WebpPass(c, s, ByImg(s.refs), |ByImg(s.refs)|)
  }

  /** A finished conversion queues the path; when the copy was not made or
      the encoder failed, no reference and no document changed. */
  lemma WebpStepQueues(c: Config, s: State, path: string, items: seq<nat>)
    requires items != [] && Bounded(items, |s.refs|)
    requires NeedsWebp(s.refs[items[0]].facts) && WebpStep(c, s, path, items).ok
    ensures var f := s.refs[items[0]].facts; var r := WebpStep(c, s, path, items).state;
      && f.webpPath.Some?
      && r.trash == s.trash + {path}
      && r.disk == WebpOutcome(c, s.disk, f).0
      && (WebpOutcome(c, s.disk, f).1 != 0 || f.webpPath.value !in WebpOutcome(c, s.disk, f).0 ==>
            r.refs == s.refs && r.docs == s.docs)
  {
  }

  /** When the conversion fails, the image is queued for the trash all the
      same, so every reference that found it at that path is now broken. */
  lemma WebpFailureBreaksRefs(c: Config, s: State, path: string, items: seq<nat>, j: nat)
    requires items != [] && Bounded(items, |s.refs|)
    requires NeedsWebp(s.refs[items[0]].facts) && WebpStep(c, s, path, items).ok
    requires s.refs[items[0]].facts.webpPath.Some? && WebpOutcome(c, s.disk, s.refs[items[0]].facts).1 != 0
    requires j < |s.refs| && s.refs[j].facts.pathOnDisk == Some(path)
    ensures var r := WebpStep(c, s, path, items).state; Broken(r.refs[j].facts, r.trash)
  {
    WebpStepQueues(c, s, path, items);
  }

  /** A finished conversion that made the copy points every reference of
      the path to its `.webp` sibling, with the old path replaced by the new
      one in its own content. */
  lemma WebpStepEffect(c: Config, s: State, path: string, items: seq<nat>)
    requires items != [] && Bounded(items, |s.refs|) && Separate(s, items)
    requires NeedsWebp(s.refs[items[0]].facts) && WebpStep(c, s, path, items).ok
    requires var f := s.refs[items[0]].facts;
      f.webpPath.Some? && WebpOutcome(c, s.disk, f).1 == 0 && f.webpPath.value in WebpOutcome(c, s.disk, f).0
    ensures var r := WebpStep(c, s, path, items).state;
      && r.trash == s.trash + {path}
      && forall k | 0 <= k < |items| ::
           var ref := s.refs[items[k]];
           && ref.facts.webpPath.Some? && Content(s.docs, ref).Some?
           && r.refs[items[k]] == ref.(facts := Resolve(c, r.disk, ref.facts, ref.facts.webpPath.value))
           && Content(r.docs, ref) == Some(ReplaceAll(Content(s.docs, ref).value, ref.facts.refPath, ref.facts.webpPath.value))
  {
    var f := s.refs[items[0]].facts;
    var s' := s.(disk := WebpOutcome(c, s.disk, f).0);
    SeparateOnAnyDisk(s, s'.disk, items);
    ApplyAllEffect(c, s', items, |items|, ToWebp);
    assert items[..|items|] == items;
  }

  // ---------------------------------------------------------------------
  // move_all_imgs_in_trash_queue_to_trash
  // ---------------------------------------------------------------------

  /** A name `with_name` accepts. */
  predicate ValidName(n: string)
  {
    n != [] && n != "." && Free(n, '/')
  }

  /** `self.trash / file.name`, with `self.trash` the world's `_trash`
      folder. */
  function TrashDest(c: Config, f: string): string
  {
    Join(Join(c.worldFolder, "_trash"), Name(f))
  }

  /** The guard `re.match('.*' + str(self.world_folder) + '.*', str(file))`.
      A world folder made of plain characters is matched as text; any other
      is handed to the regular-expression oracle, whose None is the
      `re.error` a malformed pattern raises. */
  function FolderMatch(c: Config, f: string): Option<bool>
  {
    if RegexLiteral(c.worldFolder) then Some(DotStarMatch(c.worldFolder, f))
    else c.reMatch(".*" + c.worldFolder + ".*", f)
  }

  /** An existing file moves into `_trash` when the guard matches its path;
      None when evaluating the guard raises. */
  function MaybeMove(c: Config, disk: Disk, f: string): (r: Option<Disk>)
    requires f in disk
  {
    match FolderMatch(c, f)
    case None => None
    case Some(m) => Some(if m then (disk - {f})[TrashDest(c, f) := disk[f]] else disk)
  }

  /** One file of the queue: the path itself, or else its stem
      percent-decoded, if either is a file; `with_stem` raises on a path with
      an empty or invalid name, and the guard may raise too. The guard is
      only evaluated for a file that exists. */
  function TrashOne(c: Config, disk: Disk, file: string): (r: Option<Disk>)
  {
    if file in disk then MaybeMove(c, disk, file)
    else if Name(file) == [] || !ValidName(c.unquote(Stem(file)) + Suffix(file)) then None
    else
      var u := WithStem(file, c.unquote(Stem(file)));
      if u in disk then MaybeMove(c, disk, u) else Some(disk)
  }

  /** One entry of the queue as a step of the pass: an exception stops it,
      otherwise the disk is the one `TrashOne` leaves. */
  function TrashStep(c: Config, s: State, file: string): (r: Run)
    ensures r.state.docs == s.docs && r.state.refs == s.refs && r.state.trash == s.trash
    ensures r.ok <==> TrashOne(c, s.disk, file).Some?
    ensures r.ok ==> Some(r.state.disk) == TrashOne(c, s.disk, file)
    ensures !r.ok ==> r.state.disk == s.disk
  {
    match TrashOne(c, s.disk, file)
    case None => Run(s, false)
    case Some(d) => Run(s.(disk := d), true)
  }

  /** One more entry of the queue, once the earlier ones went through. */
  lemma TrashPassNext(c: Config, s: State, order: seq<string>, n: nat)
    requires n < |order| && TrashPass(c, s, order, n).ok
    ensures TrashPass(c, s, order, n + 1) == TrashStep(c, TrashPass(c, s, order, n).state, order[n])
  {
  }

  /** The loop over the queue, visited in the order `order` (a set's
      iteration order). */
  function TrashPass(c: Config, s: State, order: seq<string>, n: nat): (r: Run)
    requires n <= |order|
    ensures r.state.docs == s.docs && r.state.refs == s.refs && r.state.trash == s.trash
    decreases n
  {
    if n == 0 then Run(s, true)
    else
      var m := TrashPass(c, s, order, n - 1);
      if !m.ok then m else TrashStep(c, m.state, order[n - 1])
  }

  /** An exception ends the loop over the queue. */
  lemma {:induction false} TrashPassStops(c: Config, s: State, order: seq<string>, n: nat, m: nat)
    requires n <= m <= |order| && !TrashPass(c, s, order, n).ok
    ensures TrashPass(c, s, order, m) == TrashPass(c, s, order, n)
    decreases m
  {
    if m > n {
      TrashPassStops(c, s, order, n, m - 1);
    }
  }

  /** Every destination lies below the world folder, and so passes the
      guard when the folder is matched as text. */
  lemma DestInWorld(c: Config, f: string)
    ensures Contains(TrashDest(c, f), c.worldFolder)
    ensures RegexLiteral(c.worldFolder) ==> FolderMatch(c, TrashDest(c, f)) == Some(true)
  {
    var wf := c.worldFolder;
    var dest := TrashDest(c, f);
    if wf == [] {
      assert OccursAt(dest, wf, 0);
    } else {
      NameDir(f);
      var n := Name(f);
      TrashIsRelative();
      assert !StartsWith(n, "/") by {
        if n != [] {
          assert n[0] != '/';
        }
      }
      var t := Join(wf, "_trash");
      assert t == wf + "/" + "_trash";
      assert dest == t + "/" + n;
      assert OccursAt(wf + [], wf, 0);
      PrefixExtends(wf, wf, "/");
      PrefixExtends(wf + "/", wf, "_trash");
      PrefixExtends(t, wf, "/");
      PrefixExtends(t + "/", wf, n);
    }
    assert OccursAt(dest, wf, 0);
    assert dest[0..|wf|] == dest[..|wf|];
  }

  lemma TrashIsRelative()
    ensures !StartsWith("_trash", "/")
  {
    assert "_trash"[0] == '_';
  }

  /** With the world folder matched as text, a path the guard rejects is
      never a destination of the move. */
  lemma RejectedIsNoDest(c: Config, k: string)
    requires RegexLiteral(c.worldFolder) && FolderMatch(c, k) != Some(true)
    ensures forall g :: TrashDest(c, g) != k
  {
    forall g ensures TrashDest(c, g) != k {
      DestInWorld(c, g);
    }
  }

  /** With the world folder matched as text, on a path without newlines the
      guard is the substring test. */
  lemma GuardIsSubstring(c: Config, f: string)
    requires RegexLiteral(c.worldFolder)
    ensures FolderMatch(c, f) == Some(true) ==> Contains(f, c.worldFolder)
    ensures (forall j | 0 <= j < |f| :: f[j] != '\n') ==> (FolderMatch(c, f) == Some(true) <==> Contains(f, c.worldFolder))
  {
    DotStarMatchContains(c.worldFolder, f);
  }

  /** One move keeps every file the guard rejects, with its bytes, unless
      the moved file lands on it. */
  lemma MaybeMoveGuard(c: Config, disk: Disk, f: string, k: string)
    requires f in disk && k in disk && FolderMatch(c, k) != Some(true)
    requires forall g :: TrashDest(c, g) != k
    ensures MaybeMove(c, disk, f).Some? ==>
      k in MaybeMove(c, disk, f).value && MaybeMove(c, disk, f).value[k] == disk[k]
  {
  }

  /** The guard of the trash move: whatever happens, a file the guard
      rejects, and on which no move can land, is neither moved nor
      overwritten. */
  lemma {:induction false} TrashGuard(c: Config, s: State, order: seq<string>, n: nat, k: string)
    requires n <= |order| && k in s.disk && FolderMatch(c, k) != Some(true)
    requires forall g :: TrashDest(c, g) != k
    ensures k in TrashPass(c, s, order, n).state.disk
    ensures TrashPass(c, s, order, n).state.disk[k] == s.disk[k]
    decreases n
  {
    if n > 0 {
      TrashGuard(c, s, order, n - 1, k);
      var d := TrashPass(c, s, order, n - 1).state.disk;
      var file := order[n - 1];
      if file in d {
        MaybeMoveGuard(c, d, file, k);
      } else if !(Name(file) == [] || !ValidName(c.unquote(Stem(file)) + Suffix(file))) {
        var u := WithStem(file, c.unquote(Stem(file)));
        if u in d {
          MaybeMoveGuard(c, d, u, k);
        }
      }
    }
  }

  /** A queued file that exists: the guard raising stops the loop, a
      rejected file stays, and an accepted one ends up in `_trash` with its
      bytes and is gone from its old place unless that is its destination. */
  lemma TrashOneMoves(c: Config, disk: Disk, file: string)
    requires file in disk
    ensures TrashOne(c, disk, file).None? <==> FolderMatch(c, file).None?
    ensures FolderMatch(c, file) == Some(false) ==> TrashOne(c, disk, file) == Some(disk)
    ensures FolderMatch(c, file) == Some(true) ==>
      var d := TrashOne(c, disk, file).value; var dest := TrashDest(c, file);
      && dest in d && d[dest] == disk[file]
      && (file != dest ==> file !in d)
  {
  }

  // ---------------------------------------------------------------------
  // add_unused_images_to_trash_queue, try_to_fix_all_broken_refs
  // ---------------------------------------------------------------------

  /** `add_unused_images_to_trash_queue`, given the images listed in the
      world folder. */
  function AddUnused(s: State, images: seq<string>): State
  {
    s.(trash := s.trash + (set x | x in Unused(images, s.refs)))
  }

  /** The queue gains exactly the listed images that no reference uses. */
  lemma AddUnusedExact(s: State, images: seq<string>)
    ensures forall x :: x in AddUnused(s, images).trash <==> x in s.trash || (x in images && !Used(s.refs, x))
    ensures AddUnused(s, images).refs == s.refs && AddUnused(s, images).docs == s.docs
  {
    UnusedExact(images, s.refs);
  }

  /** One reference of the legacy pass: nothing once a write has failed,
      otherwise the legacy fix of reference `i`, counted when it reports
      success. */
  function FixBrokenStep(c: Config, prev: (Run, nat), i: nat): (r: (Run, nat))
    requires i < |prev.0.state.refs|
    ensures |r.0.state.refs| == |prev.0.state.refs| && r.1 <= prev.1 + 1
  {
    if !prev.0.ok then prev
    else
      var t := TryToFixOneBrokenRef(c, prev.0.state, i);
      (t.0, if t.1 then prev.1 + 1 else prev.1)
  }

  /** The legacy fix over `broken[..n]`, counting the references it fixed. */
  function FixBroken(c: Config, s: State, broken: seq<nat>, n: nat): (r: (Run, nat))
    requires n <= |broken| && Bounded(broken, |s.refs|)
    ensures |r.0.state.refs| == |s.refs| && r.1 <= n
    decreases n
  {
    if n == 0 then (Run(s, true), 0)
    else FixBrokenStep(c, FixBroken(c, s, broken, n - 1), broken[n - 1])
  }

  /** An exception ends the loop over the broken references. */
  lemma {:induction false} FixBrokenStops(c: Config, s: State, broken: seq<nat>, n: nat, m: nat)
    requires n <= m <= |broken| && Bounded(broken, |s.refs|) && !FixBroken(c, s, broken, n).0.ok
    ensures FixBroken(c, s, broken, m) == FixBroken(c, s, broken, n)
    decreases m
  {
    if m > n {
      FixBrokenStops(c, s, broken, n, m - 1);
    }
  }

  /** `try_to_fix_all_broken_refs`: the legacy fix for every reference that
      was broken when the pass started. */
  function TryToFixAllBrokenRefs(c: Config, s: State): (Run, nat)
  {
    var broken := BrokenRefs(s.refs, s.trash, |s.refs|);
    BoundedBroken(s);
    FixBroken(c, s, broken, |broken|)
  }

  lemma BoundedBroken(s: State)
    ensures Bounded(BrokenRefs(s.refs, s.trash, |s.refs|), |s.refs|)
  {
    var b := BrokenRefs(s.refs, s.trash, |s.refs|);
    forall t | 0 <= t < |b| ensures b[t] < |s.refs| {
      assert b[t] in b;
    }
  }

  /** The pass touches only the references it was given, the files on disk
      and the trash queue not at all. */
  lemma {:induction false} FixBrokenFrame(c: Config, s: State, broken: seq<nat>, n: nat)
    requires n <= |broken| && Bounded(broken, |s.refs|)
    ensures var r := FixBroken(c, s, broken, n).0.state;
      && r.disk == s.disk && r.trash == s.trash
      && forall j | 0 <= j < |s.refs| && j !in broken[..n] :: r.refs[j] == s.refs[j]
    decreases n
  {
    if n > 0 {
      FixBrokenFrame(c, s, broken, n - 1);
      var prev := FixBroken(c, s, broken, n - 1);
      var m := prev.0;
      assert FixBroken(c, s, broken, n) == FixBrokenStep(c, prev, broken[n - 1]);
      if m.ok {
        var i := broken[n - 1];
        var p := m.state.refs[i].facts.refPath;
        ApplyFrame(c, m.state, i, Rename(p, LegacyTarget(p)));
        assert FixBroken(c, s, broken, n).0 == TryToFixOneBrokenRef(c, m.state, i).0;
      }
      assert broken[..n] == broken[..n - 1] + [broken[n - 1]];
    }
  }

  /** The references that were not broken are never touched. */
  lemma TryToFixAllKeepsHealthy(c: Config, s: State, j: nat)
    requires j < |s.refs| && !Broken(s.refs[j].facts, s.trash)
    ensures TryToFixAllBrokenRefs(c, s).0.state.refs[j] == s.refs[j]
  {
    var broken := BrokenRefs(s.refs, s.trash, |s.refs|);
    BoundedBroken(s);
    FixBrokenFrame(c, s, broken, |broken|);
    assert broken[..|broken|] == broken;
  }
}
