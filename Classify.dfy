/** The read-only questions `WorldRefs` asks of its references: which are
    broken, which point at a given path, which images of the world folder no
    reference uses, and the two indexes (by path; by hash, then path) with
    the duplicated images read off the second. References are named by their
    position in `all_img_refs`. */
module Classify {
  import opened Base
  import opened Refs
  import opened Docs
  import opened Grouping

  // ---------------------------------------------------------------------
  // get_broken_refs, find_refs_by_img_path
  // ---------------------------------------------------------------------

  /** A reference is broken when it found no file and is not a web link, or
      when the file it found is already queued for the trash. */
  predicate Broken(f: Facts, trash: set<string>)
  {
    || (f.pathOnDisk.None? && !f.externalLink)
    || (f.pathOnDisk.Some? && f.pathOnDisk.value in trash)
  }

  /** The broken references among the first `n`, in list order. */
  function BrokenRefs(refs: seq<Ref>, trash: set<string>, n: nat): (r: seq<nat>)
    requires n <= |refs|
    ensures forall i :: i in r <==> 0 <= i < n && Broken(refs[i].facts, trash)
    ensures Increasing(r)
  {
    if n == 0 then []
    else
      var r := BrokenRefs(refs, trash, n - 1);
      if Broken(refs[n - 1].facts, trash) then AppendIncreasing(r, n - 1); r + [n - 1] else r
  }

  /** The references among the first `n` whose path is `p`, in list order. */
  function RefsWithPath(refs: seq<Ref>, p: string, n: nat): (r: seq<nat>)
    requires n <= |refs|
    ensures forall i :: i in r <==> 0 <= i < n && refs[i].facts.refPath == p
    ensures Increasing(r)
  {
    if n == 0 then []
    else
      var r := RefsWithPath(refs, p, n - 1);
      if refs[n - 1].facts.refPath == p then AppendIncreasing(r, n - 1); r + [n - 1] else r
  }

  // ---------------------------------------------------------------------
  // get_all_unused_images_in_world_folder
  // ---------------------------------------------------------------------

  /** How many of the first `n` references found their file at `img`: the
      counter the source keeps per image. */
  function Uses(refs: seq<Ref>, img: string, n: nat): (k: nat)
    requires n <= |refs|
    ensures k == 0 <==> forall j | 0 <= j < n :: refs[j].facts.pathOnDisk != Some(img)
  {
    if n == 0 then 0
    else Uses(refs, img, n - 1) + (if refs[n - 1].facts.pathOnDisk == Some(img) then 1 else 0)
  }

  /** The images of `imgs` whose counter stayed at zero, in order. */
  function ZeroUse(imgs: seq<string>, refs: seq<Ref>): seq<string>
  {
    if imgs == [] then []
    else
      var r := ZeroUse(imgs[..|imgs| - 1], refs);
      if Uses(refs, imgs[|imgs| - 1], |refs|) == 0 then r + [imgs[|imgs| - 1]] else r
  }

  /** The unused images of the world folder: those listed, without repeats
      and in first-listed order, that no reference found as its file. */
  function Unused(images: seq<string>, refs: seq<Ref>): seq<string>
  {
    ZeroUse(Dedup(images), refs)
  }

  /** What a reference used is. */
  predicate Used(refs: seq<Ref>, img: string)
  {
    exists j | 0 <= j < |refs| :: refs[j].facts.pathOnDisk == Some(img)
  }

  lemma {:induction false} ZeroUseSpec(imgs: seq<string>, refs: seq<Ref>)
    requires Distinct(imgs)
    ensures forall x :: x in ZeroUse(imgs, refs) <==> x in imgs && !Used(refs, x)
    ensures Distinct(ZeroUse(imgs, refs))
    decreases |imgs|
  {
    if imgs != [] {
      var init := imgs[..|imgs| - 1];
      var x := imgs[|imgs| - 1];
      ZeroUseSpec(init, refs);
      assert forall y :: y in imgs <==> y in init || y == x;
      assert x !in init;
      var r := ZeroUse(init, refs);
      assert x !in r;
      if Uses(refs, x, |refs|) == 0 {
        assert ZeroUse(imgs, refs) == r + [x];
        AppendDistinct(r, x);
      } else {
        assert ZeroUse(imgs, refs) == r;
      }
    }
  }

  lemma AppendDistinct<T>(r: seq<T>, x: T)
    requires Distinct(r) && x !in r
    ensures Distinct(r + [x])
  {
    var r' := r + [x];
    forall i, j | 0 <= i < j < |r'| ensures r'[i] != r'[j] {
      assert r'[i] == r[i];
    }
  }

  /** The unused images are exactly the listed images that no reference's
      file equals, each once. */
  lemma UnusedExact(images: seq<string>, refs: seq<Ref>)
    ensures forall x :: x in Unused(images, refs) <==> x in images && !Used(refs, x)
    ensures Distinct(Unused(images, refs))
  {
    ZeroUseSpec(Dedup(images), refs);
  }

  // ---------------------------------------------------------------------
  // The two indexes
  // ---------------------------------------------------------------------

  function RefPaths(refs: seq<Ref>): (r: seq<string>)
    ensures |r| == |refs| && forall i | 0 <= i < |refs| :: r[i] == refs[i].facts.refPath
  {
    seq(|refs|, i requires 0 <= i < |refs| => refs[i].facts.refPath)
  }

  function Hashes(refs: seq<Ref>): (r: seq<Option<string>>)
    ensures |r| == |refs| && forall i | 0 <= i < |refs| :: r[i] == refs[i].facts.hash
  {
    seq(|refs|, i requires 0 <= i < |refs| => refs[i].facts.hash)
  }

  /** `get_refs_indexed_by_img()`. */
  function ByImg(refs: seq<Ref>): seq<Bucket<string>>
  {
    Group(RefPaths(refs), Range(|refs|))
  }

  /** `get_refs_indexed_by_hash_by_img()`. */
  function ByHashByImg(refs: seq<Ref>): seq<Bucket2<Option<string>, string>>
  {
    Group2(Hashes(refs), RefPaths(refs), Range(|refs|))
  }

  lemma RangeFacts(n: nat)
    ensures Increasing(Range(n)) && Bounded(Range(n), n)
    ensures forall p: int :: p in Range(n) <==> 0 <= p < n
  {
    forall p | 0 <= p < n ensures p in Range(n) {
      assert Range(n)[p] == p;
    }
  }

  /** The index by path places every reference exactly once, under its own
      path, in list order; paths appear in the order of their first
      reference. */
  lemma ByImgPartition(refs: seq<Ref>)
    ensures Partition(ByImg(refs), RefPaths(refs), Range(|refs|))
    ensures forall b | b in ByImg(refs) :: b.items != [] && Bounded(b.items, |refs|)
  {
    RangeFacts(|refs|);
    GroupPartition(RefPaths(refs), Range(|refs|));
    var g := ByImg(refs);
    forall b | b in g ensures b.items != [] && Bounded(b.items, |refs|) {
      var i :| 0 <= i < |g| && g[i] == b;
      forall t | 0 <= t < |b.items| ensures b.items[t] < |refs| {
        assert g[i].items[t] in Range(|refs|);
      }
    }
  }

  /** The hash index is the index by hash, each of whose lists is then
      indexed by path: both levels place every reference exactly once under
      its own key, in list order. */
  lemma ByHashByImgPartition(refs: seq<Ref>)
    ensures var g2, g1 := ByHashByImg(refs), Group(Hashes(refs), Range(|refs|));
      && Partition(g1, Hashes(refs), Range(|refs|))
      && |g2| == |g1|
      && forall i | 0 <= i < |g1| ::
           && g2[i].key == g1[i].key
           && Partition(g2[i].inner, RefPaths(refs), g1[i].items)
  {
    var g2, g1 := ByHashByImg(refs), Group(Hashes(refs), Range(|refs|));
    RangeFacts(|refs|);
    GroupPartition(Hashes(refs), Range(|refs|));
    Group2Spec(Hashes(refs), RefPaths(refs), Range(|refs|));
    forall i | 0 <= i < |g1| ensures Partition(g2[i].inner, RefPaths(refs), g1[i].items) {
      assert Increasing(g1[i].items);
      GroupPartition(RefPaths(refs), g1[i].items);
    }
  }

  // ---------------------------------------------------------------------
  // get_duplicated_images
  // ---------------------------------------------------------------------

  /** The entries of the hash index that hold more than one path under a
      hash that is not None, in index order. */
  function Duplicated(idx: seq<Bucket2<Option<string>, string>>): (r: seq<Bucket2<Option<string>, string>>)
    ensures forall b :: b in r <==> b in idx && |b.inner| > 1 && b.key.Some?
  {
    if idx == [] then []
    else
      var r := Duplicated(idx[..|idx| - 1]);
      var b := idx[|idx| - 1];
      assert forall x :: x in idx <==> x in idx[..|idx| - 1] || x == b;
      if |b.inner| > 1 && b.key.Some? then r + [b] else r
  }

  /** Two references share a (non-None) hash but not a path. */
  ghost predicate SameImageTwoPaths(refs: seq<Ref>, h: string)
  {
    exists i, j | 0 <= i < |refs| && 0 <= j < |refs| ::
      refs[i].facts.hash == Some(h) && refs[j].facts.hash == Some(h)
      && refs[i].facts.refPath != refs[j].facts.refPath
  }

  /** `get_duplicated_images` keeps exactly the hashes that are not None and
      that more than one distinct path maps to. */
  lemma DuplicatedExact(refs: seq<Ref>, h: string)
    ensures (exists b | b in Duplicated(ByHashByImg(refs)) :: b.key == Some(h))
        <==> SameImageTwoPaths(refs, h)
  {
    if exists b | b in Duplicated(ByHashByImg(refs)) :: b.key == Some(h) {
      DuplicatedSound(refs, h);
    }
    if SameImageTwoPaths(refs, h) {
      DuplicatedComplete(refs, h);
    }
  }

  lemma DuplicatedSound(refs: seq<Ref>, h: string)
    requires exists b | b in Duplicated(ByHashByImg(refs)) :: b.key == Some(h)
    ensures SameImageTwoPaths(refs, h)
  {
    var g2 := ByHashByImg(refs);
    var b :| b in Duplicated(g2) && b.key == Some(h);
    var i :| 0 <= i < |g2| && g2[i] == b;
    var items := HashBucket(refs, i);
    var inner := b.inner;
    var p := inner[0].items[0];
    var q := inner[1].items[0];
    PlacedKey(inner, RefPaths(refs), items, 0, p);
    PlacedKey(inner, RefPaths(refs), items, 1, q);
    assert inner[0].key != inner[1].key;
    assert p in items && q in items;
    assert refs[p].facts.hash == Some(h) && refs[q].facts.hash == Some(h);
    assert refs[p].facts.refPath != refs[q].facts.refPath;
  }

  lemma DuplicatedComplete(refs: seq<Ref>, h: string)
    requires SameImageTwoPaths(refs, h)
    ensures exists b | b in Duplicated(ByHashByImg(refs)) :: b.key == Some(h)
  {
    var g2 := ByHashByImg(refs);
    var p, q :| 0 <= p < |refs| && 0 <= q < |refs| &&
      refs[p].facts.hash == Some(h) && refs[q].facts.hash == Some(h) &&
      refs[p].facts.refPath != refs[q].facts.refPath;
    var i := HashBucketOf(refs, p);
    var i' := HashBucketOf(refs, q);
    assert i' == i;
    var items := HashBucket(refs, i);
    TwoKeys(g2[i].inner, RefPaths(refs), items, p, q);
    assert g2[i] in g2;
  }

  /** One entry of the hash index: the references it holds all carry its
      hash, and its inner dict partitions them by path. */
  lemma HashBucket(refs: seq<Ref>, i: nat) returns (items: seq<nat>)
    requires i < |ByHashByImg(refs)|
    ensures |Group(Hashes(refs), Range(|refs|))| == |ByHashByImg(refs)|
    ensures items == Group(Hashes(refs), Range(|refs|))[i].items
    ensures Partition(ByHashByImg(refs)[i].inner, RefPaths(refs), items)
    ensures forall p | p in items :: p < |refs| && refs[p].facts.hash == ByHashByImg(refs)[i].key
  {
    var g2, g1 := ByHashByImg(refs), Group(Hashes(refs), Range(|refs|));
    ByHashByImgPartition(refs);
    items := g1[i].items;
    forall p | p in items ensures p < |refs| && refs[p].facts.hash == g2[i].key {
      PlacedKey(g1, Hashes(refs), Range(|refs|), i, p);
    }
  }

  /** The one entry of the hash index that holds reference `p`. */
  lemma HashBucketOf(refs: seq<Ref>, p: nat) returns (i: nat)
    requires p < |refs|
    ensures i < |ByHashByImg(refs)| && ByHashByImg(refs)[i].key == refs[p].facts.hash
    ensures forall j | 0 <= j < |ByHashByImg(refs)| && ByHashByImg(refs)[j].key == refs[p].facts.hash :: j == i
    ensures |Group(Hashes(refs), Range(|refs|))| == |ByHashByImg(refs)|
    ensures p in Group(Hashes(refs), Range(|refs|))[i].items
  {
    var g2, g1 := ByHashByImg(refs), Group(Hashes(refs), Range(|refs|));
    ByHashByImgPartition(refs);
    RangeFacts(|refs|);
    assert p in Range(|refs|);
    PartitionPlace(g1, Hashes(refs), Range(|refs|), p);
    i :| 0 <= i < |g1| && p in g1[i].items && g1[i].key == Hashes(refs)[p];
    forall j | 0 <= j < |g2| && g2[j].key == refs[p].facts.hash ensures j == i {
      DistinctKeysSame(g1, i, j);
    }
  }

  /** A position in an entry of a partition carries that entry's key. */
  lemma PlacedKey<K>(bs: seq<Bucket<K>>, keys: seq<K>, ps: seq<nat>, i: nat, p: nat)
    requires Partition(bs, keys, ps) && i < |bs| && p in bs[i].items
    ensures p < |keys| && keys[p] == bs[i].key
  {
    var t :| 0 <= t < |bs[i].items| && bs[i].items[t] == p;
  }

  /** Entries with equal keys are the same entry. */
  lemma DistinctKeysSame<K>(bs: seq<Bucket<K>>, i: nat, j: nat)
    requires DistinctKeys(bs) && i < |bs| && j < |bs| && bs[i].key == bs[j].key
    ensures i == j
  {
  }
}
