/** `WorldRefs`: the loaded world, its image references, the files on disk
    and the trash queue, changed in place by the scanning, indexing and
    repair methods. Every method is proved against the function that
    specifies it in `Docs`, `Classify`, `Passes` or `Repairs`. */
module Compressor {
  import opened Base
  import opened Paths
  import opened Json
  import opened Refs
  import opened Docs
  import opened Grouping
  import opened Naming
  import opened Classify
  import opened Passes
  import opened Repairs

  class WorldRefs {
    /** The world folder, the core data folder and the oracles. */
    const c: Config
    /** `files`: every loaded `.json` and `.db` file. */
    var docs: seq<Doc>
    /** `all_img_refs`. */
    var refs: seq<Ref>
    /** The files on disk. */
    var disk: Disk
    /** `trash_queue`. */
    var trashQueue: set<string>

    function Model(): State
      reads this
    {
      State(docs, refs, disk, trashQueue)
    }

    /** `WorldRefs(...)`: the files are loaded, the trash queue starts empty
        and every reference is found. The files come as `load_data` leaves
        them: one record per `.json` file, and the `.json` files first. */
    constructor (c: Config, docs: seq<Doc>, disk: Disk)
      requires Loaded(docs) && JsonFirst(docs)
      ensures this.c == c && this.docs == docs && this.disk == disk && trashQueue == {}
      ensures refs == Scan(c, disk, docs, |docs|)
    {
      this.c := c;
      this.docs := docs;
      this.disk := disk;
      trashQueue := {};
      refs := [];
      new;
      FindAllImgReferencesInWorld();
    }

    // -------------------------------------------------------------------
    // Scanning
    // -------------------------------------------------------------------

    /** `find_all_img_references_in_world`: file by file, record by record. */
    method FindAllImgReferencesInWorld()
      modifies this`refs
      ensures refs == Scan(c, disk, docs, |docs|)
    {
      refs := [];
      var i := 0;
      while i < |docs|
        invariant i <= |docs| && refs == Scan(c, disk, docs, i)
      {
        ScanFile(i);
        i := i + 1;
      }
    }

    /** The records of file `i`, in order. */
    method ScanFile(i: nat)
      requires i < |docs|
      modifies this`refs
      ensures refs == old(refs) + ScanRecords(c, disk, i, docs[i].kind, docs[i].records)
    {
      ghost var r0 := refs;
      var records := docs[i].records;
      var j := 0;
      while j < |records|
        invariant j <= |records| && refs == r0 + ScanRecords(c, disk, i, docs[i].kind, records[..j])
      {
        ScanRecordsNext(c, disk, i, docs[i].kind, records, j);
        AppendAssoc(r0, ScanRecords(c, disk, i, docs[i].kind, records[..j]),
          ScanLeaves(c, disk, i, docs[i].kind, j, Walk(records[j], [])));
        TraverseDictAndFindAllRefs(i, j);
        j := j + 1;
      }
      assert records[..j] == records;
    }

    /** `traverse_dict_and_find_all_refs` on record `j` of file `i`: the
        references of each leaf the walker yields are appended in order. */
    method TraverseDictAndFindAllRefs(i: nat, j: nat)
      requires i < |docs| && j < |docs[i].records|
      modifies this`refs
      ensures refs == old(refs) + ScanLeaves(c, disk, i, docs[i].kind, j, Walk(docs[i].records[j], []))
    {
      ghost var r0 := refs;
      var leaves := Walk(docs[i].records[j], []);
      var k := 0;
      while k < |leaves|
        invariant k <= |leaves| && refs == r0 + ScanLeaves(c, disk, i, docs[i].kind, j, leaves[..k])
      {
        ScanLeavesNext(c, disk, i, docs[i].kind, j, leaves, k);
        AppendAssoc(r0, ScanLeaves(c, disk, i, docs[i].kind, j, leaves[..k]),
          LeafRefs(c, disk, i, docs[i].kind, j, leaves[k]));
        refs := refs + LeafRefs(c, disk, i, docs[i].kind, j, leaves[k]);
        k := k + 1;
      }
      assert leaves[..k] == leaves;
    }

    // -------------------------------------------------------------------
    // Indexes and classification
    // -------------------------------------------------------------------

    /** `get_refs_indexed_by_img()`. */
    method GetRefsIndexedByImg() returns (idx: seq<Bucket<string>>)
      ensures idx == ByImg(refs)
    {
      idx := [];
      var p := 0;
      while p < |refs|
        invariant p <= |refs|
        invariant idx == Group(RefPaths(refs), Range(p))
      {
        assert Range(p + 1)[..p] == Range(p);
        idx := Insert(idx, refs[p].facts.refPath, p);
        p := p + 1;
      }
    }

    /** `get_refs_indexed_by_hash_by_img()`. */
    method GetRefsIndexedByHashByImg() returns (idx: seq<Bucket2<Option<string>, string>>)
      ensures idx == ByHashByImg(refs)
    {
      idx := [];
      var p := 0;
      while p < |refs|
        invariant p <= |refs|
        invariant idx == Group2(Hashes(refs), RefPaths(refs), Range(p))
      {
        assert Range(p + 1)[..p] == Range(p);
        idx := Insert2(idx, refs[p].facts.hash, refs[p].facts.refPath, p);
        p := p + 1;
      }
    }

    /** `get_duplicated_images()`. */
    method GetDuplicatedImages() returns (dups: seq<Bucket2<Option<string>, string>>)
      ensures dups == Duplicated(ByHashByImg(refs))
    {
      var idx := GetRefsIndexedByHashByImg();
      dups := [];
      var k := 0;
      while k < |idx|
        invariant k <= |idx|
        invariant dups == Duplicated(idx[..k])
      {
        assert idx[..k + 1][..k] == idx[..k];
        var b := idx[k];
        if |b.inner| > 1 && b.key.Some? {
          dups := dups + [b];
        }
        k := k + 1;
      }
      assert idx[..k] == idx;
    }

    /** `get_broken_refs()`. */
    method GetBrokenRefs() returns (broken: seq<nat>)
      ensures broken == BrokenRefs(refs, trashQueue, |refs|)
    {
      broken := [];
      var k := 0;
      while k < |refs|
        invariant k <= |refs|
        invariant broken == BrokenRefs(refs, trashQueue, k)
      {
        if Broken(refs[k].facts, trashQueue) {
          broken := broken + [k];
        }
        k := k + 1;
      }
    }

    /** `find_refs_by_img_path(p)`. */
    method FindRefsByImgPath(p: string) returns (found: seq<nat>)
      ensures found == RefsWithPath(refs, p, |refs|)
    {
      found := [];
      var k := 0;
      while k < |refs|
        invariant k <= |refs|
        invariant found == RefsWithPath(refs, p, k)
      {
        if refs[k].facts.refPath == p {
          found := found + [k];
        }
        k := k + 1;
      }
    }

    /** `get_all_unused_images_in_world_folder()`, given the images found in
        the world folder: a counter per image, one increment per reference
        that found it, and the images whose counter stayed at zero. */
    method GetAllUnusedImagesInWorldFolder(images: seq<string>) returns (unused: seq<string>)
      ensures unused == Unused(images, refs)
    {
      var order, zeros := ListImages(images);
      var counts := CountUses(zeros);
      unused := [];
      var t := 0;
      while t < |order|
        invariant t <= |order|
        invariant unused == ZeroUse(order[..t], refs)
      {
        assert order[..t + 1][..t] == order[..t];
        assert order[t] in counts.Keys;
        if counts[order[t]] == 0 {
          unused := unused + [order[t]];
        }
        t := t + 1;
      }
      assert order[..t] == order;
    }

    /** The first loop of `get_all_unused_images_in_world_folder`: every
        listed image gets a zero counter, in first-listed order. */
    static method ListImages(images: seq<string>) returns (order: seq<string>, counts: map<string, nat>)
      ensures order == Dedup(images)
      ensures counts.Keys == set x | x in images
      ensures forall x | x in counts :: counts[x] == 0
    {
      order, counts := [], map[];
      var k := 0;
      while k < |images|
        invariant k <= |images|
        invariant order == Dedup(images[..k])
        invariant counts.Keys == set x | x in images[..k]
        invariant forall x | x in counts :: counts[x] == 0
      {
        assert images[..k + 1][..k] == images[..k];
        assert forall x :: x in images[..k + 1] <==> x in images[..k] || x == images[k];
        if images[k] !in counts {
          order := order + [images[k]];
        }
        counts := counts[images[k] := 0];
        k := k + 1;
      }
      assert images[..k] == images;
    }

    /** The second loop: one increment per reference whose file is a
        listed image. */
    method CountUses(zeros: map<string, nat>) returns (counts: map<string, nat>)
      requires forall x | x in zeros :: zeros[x] == 0
      ensures counts.Keys == zeros.Keys
      ensures forall x | x in counts :: counts[x] == Uses(refs, x, |refs|)
    {
      counts := zeros;
      var j := 0;
      while j < |refs|
        invariant j <= |refs| && counts.Keys == zeros.Keys
        invariant forall x | x in counts :: counts[x] == Uses(refs, x, j)
      {
        var d := refs[j].facts.pathOnDisk;
        if d.Some? && d.value in counts {
          counts := counts[d.value := counts[d.value] + 1];
        }
        j := j + 1;
      }
    }

    /** `add_unused_images_to_trash_queue()`. */
    method AddUnusedImagesToTrashQueue(images: seq<string>)
      modifies this
      ensures Model() == AddUnused(old(Model()), images)
    {
      var unused := GetAllUnusedImagesInWorldFolder(images);
      var k := 0;
      while k < |unused|
        invariant k <= |unused|
        invariant Model() == old(Model()).(trash := old(trashQueue) + set x | x in unused[..k])
      {
        assert forall x :: x in unused[..k + 1] <==> x in unused[..k] || x == unused[k];
        trashQueue := trashQueue + {unused[k]};
        k := k + 1;
      }
      assert unused[..k] == unused;
    }

    // -------------------------------------------------------------------
    // One reference
    // -------------------------------------------------------------------

    /** `set_editable_attributes(path)` on reference `i`. */
    method SetEditableAttributes(i: nat, path: string)
      requires i < |refs|
      modifies this
      ensures refs == old(refs)[i := old(refs)[i].(facts := Resolve(c, disk, old(refs)[i].facts, path))]
      ensures docs == old(docs) && disk == old(disk) && trashQueue == old(trashQueue)
    {
      refs := refs[i := refs[i].(facts := Resolve(c, disk, refs[i].facts, path))];
    }

    /** `push_updated_content_to_world(text)` from reference `i`: the leaf
        is overwritten in place; false where Python raises. */
    method PushUpdatedContentToWorld(i: nat, text: string) returns (ok: bool)
      requires i < |refs|
      modifies this
      ensures refs == old(refs) && disk == old(disk) && trashQueue == old(trashQueue)
      ensures ok == Push(old(docs), refs[i], text).Some?
      ensures docs == if ok then Push(old(docs), refs[i], text).value else old(docs)
    {
      match Push(docs, refs[i], text)
      case None =>
        ok := false;
      case Some(docs') =>
        docs := docs';
        ok := true;
    }

    /** One action on reference `i`: read its content, point it to the
        target, push the new text. */
    method ApplyAction(i: nat, a: Action) returns (ok: bool)
      requires i < |refs|
      modifies this
      ensures Run(Model(), ok) == Apply(c, old(Model()), i, a)
    {
      var ref := refs[i];
      var text: string;
      var target: string;
      if a.Overwrite? {
        target, text := a.target, a.text;
      } else {
        match Content(docs, ref)
        case None =>
          return false;
        case Some(prev) =>
          match Target(ref, a)
          case None =>
            return false;
          case Some(t) =>
            target, text := t, Text(ref, a, prev);
      }
      SetEditableAttributes(i, target);
      PushIgnoresFacts(docs, ref, refs[i].facts, text);
      ok := PushUpdatedContentToWorld(i, text);
    }

    /** `update_one_ref_to_webp(refs[i])`. */
    method UpdateOneRefToWebp(i: nat) returns (ok: bool)
      requires i < |refs|
      modifies this
      ensures Run(Model(), ok) == Apply(c, old(Model()), i, ToWebp)
    {
      ok := ApplyAction(i, ToWebp);
    }

    /** The action on `ps[k]`, once the first `k` went through; an exception
        there is where the whole pass ends. */
    method ApplyNext(ghost s0: State, ps: seq<nat>, k: nat, a: Action) returns (ok: bool)
      requires k < |ps| && Bounded(ps, |s0.refs|)
      requires Run(Model(), true) == ApplyAll(c, s0, ps, k, a)
      modifies this
      ensures Run(Model(), ok) == ApplyAll(c, s0, ps, k + 1, a)
      ensures !ok ==> Run(Model(), ok) == ApplyAll(c, s0, ps, |ps|, a)
    {
      ApplyAllNext(c, s0, ps, k, a);
      ok := ApplyAction(ps[k], a);
      if !ok {
        ApplyAllStops(c, s0, ps, k + 1, |ps|, a);
      }
    }

    /** The action on each of the references `ps`, in order. */
    method ApplyToAll(ps: seq<nat>, a: Action) returns (ok: bool)
      requires Bounded(ps, |refs|)
      modifies this
      ensures Run(Model(), ok) == ApplyAll(c, old(Model()), ps, |ps|, a)
    {
      ghost var s0 := Model();
      assert s0 == old(Model());
      var k := 0;
      while k < |ps|
        invariant k <= |ps| && Run(Model(), true) == ApplyAll(c, s0, ps, k, a)
      {
        ok := ApplyNext(s0, ps, k, a);
        if !ok {
          return;
        }
        k := k + 1;
      }
      ok := true;
    }

    // -------------------------------------------------------------------
    // Repairs
    // -------------------------------------------------------------------

    /** `try_to_fix_one_broken_ref(refs[i])`. */
    method TryToFixOneBrokenRef(i: nat) returns (fixed: bool, ok: bool)
      requires i < |refs|
      modifies this
      ensures Run(Model(), ok) == Passes.TryToFixOneBrokenRef(c, old(Model()), i).0
      ensures fixed == Passes.TryToFixOneBrokenRef(c, old(Model()), i).1
    {
      var p := refs[i].facts.refPath;
      if StartsWith(p, "modules") {
        var target := LegacyTarget(p);
        if target in disk {
          ok := ApplyAction(i, Rename(p, target));
          fixed := ok;
          return;
        }
      }
      fixed, ok := false, true;
    }

    /** The legacy fix on `broken[k]`, once the first `k` went through; an
        exception there is where the whole loop ends. */
    method FixNext(ghost s0: State, broken: seq<nat>, k: nat, count: nat) returns (count': nat, ok: bool)
      requires k < |broken| && Bounded(broken, |s0.refs|)
      requires Run(Model(), true) == FixBroken(c, s0, broken, k).0 && count == FixBroken(c, s0, broken, k).1
      modifies this
      ensures Run(Model(), ok) == FixBroken(c, s0, broken, k + 1).0 && count' == FixBroken(c, s0, broken, k + 1).1
      ensures !ok ==> Run(Model(), ok) == FixBroken(c, s0, broken, |broken|).0 && count' == FixBroken(c, s0, broken, |broken|).1
    {
      ghost var before := Model();
      var fixed;
      fixed, ok := TryToFixOneBrokenRef(broken[k]);
      assert FixBroken(c, s0, broken, k + 1) == FixBrokenStep(c, FixBroken(c, s0, broken, k), broken[k]);
      count' := if fixed then count + 1 else count;
      if !ok {
        FixBrokenStops(c, s0, broken, k + 1, |broken|);
      }
    }

    /** `try_to_fix_all_broken_refs()`: the number of references fixed. */
    method TryToFixAllBrokenRefs() returns (count: nat, ok: bool)
      modifies this
      ensures Run(Model(), ok) == Repairs.TryToFixAllBrokenRefs(c, old(Model())).0
      ensures count == Repairs.TryToFixAllBrokenRefs(c, old(Model())).1
    {
      ghost var s0 := Model();
      assert s0 == old(Model());
      var broken := GetBrokenRefs();
      BoundedBroken(s0);
      count := 0;
      var k := 0;
      while k < |broken|
        invariant k <= |broken| && |refs| == |s0.refs|
        invariant Run(Model(), true) == FixBroken(c, s0, broken, k).0 && count == FixBroken(c, s0, broken, k).1
      {
        count, ok := FixNext(s0, broken, k, count);
        if !ok {
          return;
        }
        k := k + 1;
      }
      ok := true;
    }

    /** The body of `fix_incorrect_file_extensions` for one path. */
    method FixExtensionOf(items: seq<nat>) returns (ok: bool)
      requires items != [] && Bounded(items, |refs|)
      modifies this
      ensures Run(Model(), ok) == ExtStep(c, old(Model()), items)
    {
      var ref := refs[items[0]];
      var f := ref.facts;
      var p := f.refPath;
      if !NeedsExtFix(f) {
        return true;
      }
      var target := ExtTarget(Model(), f);
      if Content(docs, ref).None? || target.None? || p !in disk {
        return false;
      }
      disk := disk[target.value := disk[p]];
      ok := ApplyToAll(items, Rename(p, target.value));
    }

    /** `fix_incorrect_file_extensions()`. */
    method FixIncorrectFileExtensions() returns (ok: bool)
      modifies this
      ensures Run(Model(), ok) == Repairs.FixIncorrectFileExtensions(c, old(Model()))
    {
      ghost var s0 := Model();
      assert s0 == old(Model());
      var idx := GetRefsIndexedByImg();
      ByImgBuckets(refs);
      var k := 0;
      while k < |idx|
        invariant k <= |idx| && |refs| == |s0.refs|
        invariant Run(Model(), true) == ExtPass(c, s0, idx, k)
      {
        ExtPassNext(c, s0, idx, k);
        ok := FixExtensionOf(idx[k].items);
        if !ok {
          ExtPassStops(c, s0, idx, k + 1, |idx|);
          return;
        }
        k := k + 1;
      }
      ok := true;
    }

    /** `fix_one_set_of_duplicated_images(inner)`. */
    method FixOneSetOfDuplicatedImages(inner: seq<Bucket<string>>) returns (ok: bool)
      requires Sets(inner, |refs|)
      modifies this
      ensures Run(Model(), ok) == FixOneSet(c, old(Model()), inner)
    {
      if inner == [] {
        return false;
      }
      ghost var s0 := Model();
      assert s0 == old(Model());
      var k := 1;
      while k < |inner|
        invariant 1 <= k <= |inner| && |refs| == |s0.refs|
        invariant Run(Model(), true) == Redirects(c, s0, inner, k)
      {
        ok := RedirectOne(s0, inner, k);
        if !ok {
          RedirectsStops(c, s0, inner, k + 1, |inner|);
          return;
        }
        k := k + 1;
      }
      ok := true;
    }

    /** One non-first path `inner[k].key` of the set: its references are
        pointed at the main image, then the path is queued. */
    method RedirectOne(ghost s0: State, inner: seq<Bucket<string>>, k: nat) returns (ok: bool)
      requires 1 <= k < |inner| && Sets(inner, |s0.refs|)
      requires Run(Model(), true) == Redirects(c, s0, inner, k)
      modifies this
      ensures Run(Model(), ok) == Redirects(c, s0, inner, k + 1)
    {
      RedirectsNext(c, s0, inner, k);
      ok := ApplyToAll(inner[k].items, Redirect(inner[0].key));
      if ok {
        trashQueue := trashQueue + {inner[k].key};
      }
    }

    /** `create_webp_copy()` from `src` to `w`: the encoder's exit code. */
    method CreateWebpCopy(src: string, w: string) returns (code: int)
      modifies this
      ensures (disk, code) == Encode(c, old(disk), src, w)
      ensures docs == old(docs) && refs == old(refs) && trashQueue == old(trashQueue)
    {
      var e := c.encode(if src in disk then Some(disk[src]) else None);
      if e.output.Some? {
        disk := disk[w := e.output.value];
      }
      code := e.code;
    }

    /** The body of `convert_all_images_to_webp_and_update_refs` for the
        path `path`. */
    method ConvertOne(path: string, items: seq<nat>) returns (ok: bool)
      requires items != [] && Bounded(items, |refs|)
      modifies this
      ensures Run(Model(), ok) == WebpStep(c, old(Model()), path, items)
    {
      var f := refs[items[0]].facts;
      if !NeedsWebp(f) {
        return true;
      }
      if f.webpPath.None? {
        return false;
      }
      var w := f.webpPath.value;
      var code := 0;
      if w !in disk {
        code := CreateWebpCopy(f.pathOnDisk.value, w);
      }
      ok := true;
      if code == 0 && w in disk {
        ok := ApplyToAll(items, ToWebp);
      }
      if ok {
        trashQueue := trashQueue + {path};
      }
    }

    /** `convert_all_images_to_webp_and_update_refs()`. */
    method ConvertAllImagesToWebpAndUpdateRefs() returns (ok: bool)
      modifies this
      ensures Run(Model(), ok) == ConvertAllImagesToWebp(c, old(Model()))
    {
      ghost var s0 := Model();
      assert s0 == old(Model());
      var idx := GetRefsIndexedByImg();
      ByImgBuckets(refs);
      var k := 0;
      while k < |idx|
        invariant k <= |idx| && |refs| == |s0.refs|
        invariant Run(Model(), true) == WebpPass(c, s0, idx, k)
      {
        WebpPassNext(c, s0, idx, k);
        ok := ConvertOne(idx[k].key, idx[k].items);
        if !ok {
          WebpPassStops(c, s0, idx, k + 1, |idx|);
          return;
        }
        k := k + 1;
      }
      ok := true;
    }

    /** One entry of the queue: the file, or else the file under its
        percent-decoded name, is moved when the world-folder pattern
        matches its path; an empty or invalid name makes `with_stem` raise,
        and a malformed pattern makes `re.match` raise. */
    method MoveToTrash(file: string) returns (ok: bool)
      modifies this
      ensures docs == old(docs) && refs == old(refs) && trashQueue == old(trashQueue)
      ensures ok <==> TrashOne(c, old(disk), file).Some?
      ensures ok ==> TrashOne(c, old(disk), file) == Some(disk)
      ensures !ok ==> disk == old(disk)
    {
      ok := true;
      var path := file;
      var found := path in disk;
      if !found {
        if Name(path) == [] || !ValidName(c.unquote(Stem(path)) + Suffix(path)) {
          ok := false;
        } else {
          var unquoted := WithStem(path, c.unquote(Stem(path)));
          if unquoted in disk {
            found, path := true, unquoted;
          }
        }
      }
      if ok && found {
        var inWorld := FolderMatch(c, path);
        if inWorld.None? {
          ok := false;
        } else if inWorld.value {
          disk := (disk - {path})[TrashDest(c, path) := disk[path]];
        }
      }
    }

    /** `move_all_imgs_in_trash_queue_to_trash()`, visiting the queue in the
        order `order`. */
    method MoveAllImgsInTrashQueueToTrash(order: seq<string>) returns (ok: bool)
      requires Distinct(order) && forall x :: x in order <==> x in trashQueue
      modifies this
      ensures Run(Model(), ok) == TrashPass(c, old(Model()), order, |order|)
    {
      ghost var s0 := Model();
      assert s0 == old(Model());
      var k := 0;
      while k < |order|
        invariant k <= |order|
        invariant docs == s0.docs && refs == s0.refs && trashQueue == s0.trash
        invariant TrashPass(c, s0, order, k) == Run(s0.(disk := disk), true)
      {
        TrashPassNext(c, s0, order, k);
        ok := MoveToTrash(order[k]);
        assert TrashPass(c, s0, order, k + 1) == Run(s0.(disk := disk), ok);
        if !ok {
          TrashPassStops(c, s0, order, k + 1, |order|);
          assert Model() == s0.(disk := disk);
          return;
        }
        k := k + 1;
      }
      assert Model() == s0.(disk := disk);
      ok := true;
    }
  }
}
