/** The loaded world files, the image references found in them, and the two
    ways a reference touches its file: reading its content
    (`ImageReference.get_img_ref_content`) and writing new content back
    (`ImageReference.push_updated_content_to_world`). Also the scan that
    finds the references (`WorldRefs.traverse_dict_and_find_all_refs`). */
module Docs {
  import opened Base
  import opened Json
  import opened Refs

  datatype Kind = JsonFile | DbFile

  /** One loaded file: a `.json` file is held as the one-element list
      `[record]`, a `.db` file as the list of the records of its lines. */
  datatype Doc = Doc(kind: Kind, path: string, records: seq<Value>)

  /** An `ImageReference`: the file it was found in (a position in the list
      of loaded files), its `ref_file_line`, the address of the leaf that
      holds it (`json_address`), whether that leaf is an HTML chunk, and its
      editable attributes. */
  datatype Ref = Ref(doc: nat, line: Option<nat>, address: seq<Step>, isHtml: bool, facts: Facts)

  /** The files as `load_data` leaves them: every `.json` file holds exactly
      one record. */
  predicate Loaded(docs: seq<Doc>)
  {
    forall i | 0 <= i < |docs| :: docs[i].kind == JsonFile ==> |docs[i].records| == 1
  }

  /** The order `load_data` gives the files: every `.json` file comes
      before every `.db` file. */
  predicate JsonFirst(docs: seq<Doc>)
  {
    forall i, j | 0 <= i < j < |docs| :: docs[j].kind == JsonFile ==> docs[i].kind == JsonFile
  }

  /** The files keep their kinds, paths and numbers of records. */
  predicate SameShape(docs: seq<Doc>, docs': seq<Doc>)
  {
    && |docs'| == |docs|
    && forall i | 0 <= i < |docs| ::
         && docs'[i].kind == docs[i].kind && docs'[i].path == docs[i].path
         && |docs'[i].records| == |docs[i].records|
  }

  // ---------------------------------------------------------------------
  // Reading and writing a reference's leaf
  // ---------------------------------------------------------------------

  /** The record a reference lives in: line `line` of a `.db` file, the one
      record of a `.json` file. None when Python would raise. */
  function RecordOf(docs: seq<Doc>, r: Ref): (j: Option<nat>)
    ensures j.Some? ==> r.doc < |docs| && j.value < |docs[r.doc].records|
    ensures j.Some? && docs[r.doc].kind == DbFile ==> r.line == j
    ensures j.Some? && docs[r.doc].kind == JsonFile ==> j == Some(0)
  {
    if r.doc >= |docs| then None
    else
      var d := docs[r.doc];
      match d.kind
      case DbFile => if r.line.Some? && r.line.value < |d.records| then r.line else None
      case JsonFile => if |d.records| > 0 then Some(0) else None
  }

  /** `get_img_ref_content()`: the string at the reference's address. A
      missing address, or a value that is not a string (on which the callers'
      `str.replace` would fail), gives None. */
  function Content(docs: seq<Doc>, r: Ref): Option<string>
  {
    match RecordOf(docs, r)
    case None => None
    case Some(j) =>
      match Get(docs[r.doc].records[j], r.address)
      case Some(Str(s)) => Some(s)
      case _ => None
  }

  /** `push_updated_content_to_world(s)`: the files after the string `s` is
      assigned at the reference's address, or None when Python raises. */
  function Push(docs: seq<Doc>, r: Ref, s: string): (r': Option<seq<Doc>>)
    ensures r'.Some? ==> SameShape(docs, r'.value) && RecordOf(docs, r).Some?
    ensures r'.Some? ==> forall i | 0 <= i < |docs| && i != r.doc :: r'.value[i] == docs[i]
  {
    match RecordOf(docs, r)
    case None => None
    case Some(j) =>
      match Edit(docs[r.doc].records[j], r.address, Str(s))
      case None => None
      case Some(rec) => Some(docs[r.doc := docs[r.doc].(records := docs[r.doc].records[j := rec])])
  }

  /** Where a push writes depends on the reference's place, not on its
      attributes. */
  lemma PushIgnoresFacts(docs: seq<Doc>, r: Ref, f: Facts, s: string)
    ensures Push(docs, r.(facts := f), s) == Push(docs, r, s)
  {
    assert RecordOf(docs, r.(facts := f)) == RecordOf(docs, r);
  }

  /** Files of the same shape place every reference in the same record. */
  lemma SameShapeRecordOf(docs: seq<Doc>, docs': seq<Doc>, r: Ref)
    requires SameShape(docs, docs')
    ensures RecordOf(docs', r) == RecordOf(docs, r)
  {
  }

  /** After a push, the reference reads back the pushed string, and so does
      every reference sharing its leaf (the references of one HTML chunk). */
  lemma PushThenContent(docs: seq<Doc>, r: Ref, s: string, r2: Ref)
    requires Push(docs, r, s).Some?
    requires r2.doc == r.doc && RecordOf(docs, r2) == RecordOf(docs, r) && r2.address == r.address
    ensures Content(Push(docs, r, s).value, r2) == Some(s)
  {
    var docs' := Push(docs, r, s).value;
    var j := RecordOf(docs, r).value;
    SameShapeRecordOf(docs, docs', r2);
    EditThenGet(docs[r.doc].records[j], r.address, Str(s));
  }

  /** A push leaves every reference elsewhere reading as before: one in
      another file, another record, or at an address that neither extends
      nor is a prefix of the pushed one. */
  lemma PushFrame(docs: seq<Doc>, r: Ref, s: string, r2: Ref)
    requires Push(docs, r, s).Some?
    requires || r2.doc != r.doc
             || RecordOf(docs, r2) != RecordOf(docs, r)
             || (!(r.address <= r2.address) && !(r2.address <= r.address))
    ensures Content(Push(docs, r, s).value, r2) == Content(docs, r2)
  {
    var docs' := Push(docs, r, s).value;
    SameShapeRecordOf(docs, docs', r2);
    var j := RecordOf(docs, r).value;
    if r2.doc == r.doc && RecordOf(docs, r2) == RecordOf(docs, r) {
      EditFrame(docs[r.doc].records[j], r.address, Str(s), r2.address);
    }
  }

  // ---------------------------------------------------------------------
  // The same two operations as the source writes them
  // ---------------------------------------------------------------------

  /** `file_reference` as the source builds it: `files[type][path]`, then
      `[line]` for a `.db` file only. For a `.json` file this is the whole
      one-element list, not the record inside it. */
  function FileReferenceAsWritten(docs: seq<Doc>, r: Ref): Option<Value>
  {
    if r.doc >= |docs| then None
    else
      var d := docs[r.doc];
      match d.kind
      case DbFile =>
        if r.line.Some? && r.line.value < |d.records| then Some(d.records[r.line.value]) else None
      case JsonFile => Some(Arr(d.records))
  }

  function ContentAsWritten(docs: seq<Doc>, r: Ref): Option<string>
  {
    match FileReferenceAsWritten(docs, r)
    case None => None
    case Some(v) =>
      match Get(v, r.address)
      case Some(Str(s)) => Some(s)
      case _ => None
  }

  function PushAsWritten(docs: seq<Doc>, r: Ref, s: string): Option<seq<Doc>>
  {
    if r.doc >= |docs| then None
    else
      var d := docs[r.doc];
      match d.kind
      case DbFile =>
        if r.line.Some? && r.line.value < |d.records| then
          match Edit(d.records[r.line.value], r.address, Str(s))
          case None => None
          case Some(rec) => Some(docs[r.doc := d.(records := d.records[r.line.value := rec])])
        else None
      case JsonFile =>
        match Edit(Arr(d.records), r.address, Str(s))
        case Some(Arr(items)) => Some(docs[r.doc := d.(records := items)])
        case _ => None
  }

  /** For a `.db` reference the source's reading and writing are the
      corrected ones. */
  lemma DbAsWrittenAgrees(docs: seq<Doc>, r: Ref, s: string)
    requires r.doc < |docs| && docs[r.doc].kind == DbFile
    ensures ContentAsWritten(docs, r) == Content(docs, r)
    ensures PushAsWritten(docs, r, s) == Push(docs, r, s)
  {
  }

  /** For a `.json` reference whose address starts with a dict key (all of
      them, as the scan finds them), the source indexes a list with a string:
      reading and writing both raise. */
  lemma JsonAsWrittenFails(docs: seq<Doc>, r: Ref, s: string)
    requires r.doc < |docs| && docs[r.doc].kind == JsonFile
    requires r.address == [] || r.address[0].Key?
    ensures ContentAsWritten(docs, r).None? && PushAsWritten(docs, r, s).None?
  {
  }

  // ---------------------------------------------------------------------
  // Finding the references
  // ---------------------------------------------------------------------

  /** `re.compile(r'\.webp|\.jpg|\.jpeg|\.png').findall(s)` is non-empty:
      the extensions are matched case-sensitively, anywhere in the text. */
  predicate MentionsImage(s: string)
  {
    Contains(s, ".webp") || Contains(s, ".jpg") || Contains(s, ".jpeg") || Contains(s, ".png")
  }

  /** The keys of `unique_img_refs_in_html`: the strings of `xs` without
      repeats, each at its first occurrence. */
  function Dedup(xs: seq<string>): (r: seq<string>)
    ensures forall x :: x in r <==> x in xs
    ensures Distinct(r)
    decreases |xs|
  {
    if xs == [] then []
    else
      var d := Dedup(xs[..|xs| - 1]);
      var x := xs[|xs| - 1];
      assert forall y :: y in xs <==> y in xs[..|xs| - 1] || y == x;
      if x in d then d else d + [x]
  }

  /** The position of the first occurrence of `x` in `xs`. */
  function FirstIndex(xs: seq<string>, x: string): (i: nat)
    requires x in xs
    ensures i < |xs| && xs[i] == x && x !in xs[..i]
  {
    if xs[0] == x then 0
    else
      var i := FirstIndex(xs[1..], x);
      assert xs[..i + 1] == [xs[0]] + xs[1..][..i];
      i + 1
  }

  /** A position holding `x` with no `x` before it is the first one. */
  lemma FirstIndexUnique(xs: seq<string>, x: string, i: nat)
    requires i < |xs| && xs[i] == x && x !in xs[..i]
    ensures FirstIndex(xs, x) == i
  {
  }

  /** Dedup keeps the strings in the order of their first occurrences. */
  lemma {:induction false} DedupOrder(xs: seq<string>)
    ensures forall i, j | 0 <= i < j < |Dedup(xs)| ::
      FirstIndex(xs, Dedup(xs)[i]) < FirstIndex(xs, Dedup(xs)[j])
    decreases |xs|
  {
    if xs != [] {
      var init := xs[..|xs| - 1];
      var x := xs[|xs| - 1];
      var d := Dedup(init);
      DedupOrder(init);
      assert xs == init + [x];
      forall y | y in init ensures FirstIndex(xs, y) == FirstIndex(init, y) {
        var i := FirstIndex(init, y);
        assert xs[..i] == init[..i];
        FirstIndexUnique(xs, y, i);
      }
      if x !in d {
        assert x !in init;
        assert xs[..|xs| - 1] == init;
        FirstIndexUnique(xs, x, |xs| - 1);
      }
    }
  }

  /** A list without repeats is its own deduplication. */
  lemma {:induction false} DedupDistinct(xs: seq<string>)
    requires Distinct(xs)
    ensures Dedup(xs) == xs
    decreases |xs|
  {
    if xs != [] {
      var init := xs[..|xs| - 1];
      DedupDistinct(init);
      assert xs[|xs| - 1] !in init;
      assert init + [xs[|xs| - 1]] == xs;
    }
  }

  /** The `ImageReference`s one leaf of record `line` of file `doc` yields:
      none unless it is a string mentioning an image; for an HTML chunk one
      per distinct `<img src>`, with no line in a `.json` file; otherwise the
      leaf itself is the path, with line 0 in a `.json` file. */
  function LeafRefs(c: Config, disk: Disk, doc: nat, kind: Kind, line: nat, e: Leaf): seq<Ref>
  {
    match e.value
    case Str(s) =>
      if !MentionsImage(s) then []
      else if c.isHtml(s) then
        var srcs := Dedup(c.imgSrcs(s));
        seq(|srcs|, k requires 0 <= k < |srcs| =>
          Ref(doc, if kind == DbFile then Some(line) else None, e.address, true,
              Resolve(c, disk, Initial, srcs[k])))
      else
        [Ref(doc, if kind == DbFile then Some(line) else Some(0), e.address, false,
             Resolve(c, disk, Initial, s))]
    case _ => []
  }

  /** The references of the first leaves, in order. */
  function ScanLeaves(c: Config, disk: Disk, doc: nat, kind: Kind, line: nat, leaves: seq<Leaf>): seq<Ref>
    decreases |leaves|
  {
    if leaves == [] then []
    else
      ScanLeaves(c, disk, doc, kind, line, leaves[..|leaves| - 1])
        + LeafRefs(c, disk, doc, kind, line, leaves[|leaves| - 1])
  }

  /** The references of the records `records` of file `doc`, the record at
      position `j` being line `j`. */
  function ScanRecords(c: Config, disk: Disk, doc: nat, kind: Kind, records: seq<Value>): seq<Ref>
    decreases |records|
  {
    if records == [] then []
    else
      var j := |records| - 1;
      ScanRecords(c, disk, doc, kind, records[..j]) + ScanLeaves(c, disk, doc, kind, j, Walk(records[j], []))
  }

  /** `find_all_img_references_in_world`: the references of the first `n`
      files, file by file, record by record, leaf by leaf. */
  function Scan(c: Config, disk: Disk, docs: seq<Doc>, n: nat): seq<Ref>
    requires n <= |docs|
  {
    if n == 0 then []
    else Scan(c, disk, docs, n - 1) + ScanRecords(c, disk, n - 1, docs[n - 1].kind, docs[n - 1].records)
  }

  /** Scanning one more leaf appends that leaf's references. */
  lemma ScanLeavesNext(c: Config, disk: Disk, doc: nat, kind: Kind, line: nat, leaves: seq<Leaf>, k: nat)
    requires k < |leaves|
    ensures ScanLeaves(c, disk, doc, kind, line, leaves[..k + 1])
      == ScanLeaves(c, disk, doc, kind, line, leaves[..k]) + LeafRefs(c, disk, doc, kind, line, leaves[k])
  {
    assert leaves[..k + 1][..k] == leaves[..k];
  }

  /** Scanning one more record appends the references of its leaves. */
  lemma ScanRecordsNext(c: Config, disk: Disk, doc: nat, kind: Kind, records: seq<Value>, j: nat)
    requires j < |records|
    ensures ScanRecords(c, disk, doc, kind, records[..j + 1])
      == ScanRecords(c, disk, doc, kind, records[..j]) + ScanLeaves(c, disk, doc, kind, j, Walk(records[j], []))
  {
    assert records[..j + 1][..j] == records[..j];
  }

  /** What the scan promises of every reference it creates: it reads back a
      string that mentions an image; an HTML reference's path is one of the
      chunk's `src`s, any other reference's path is the whole string; `.json`
      HTML references alone have no line; and the attributes are those of a
      first resolution of that path. */
  ghost predicate Found(c: Config, disk: Disk, docs: seq<Doc>, r: Ref)
  {
    && r.doc < |docs|
    && (r.line.None? <==> docs[r.doc].kind == JsonFile && r.isHtml)
    && r.address != [] && r.address[0].Key?
    && r.facts == Resolve(c, disk, Initial, r.facts.refPath)
    && match Content(docs, r)
       case None => false
       case Some(s) =>
         && MentionsImage(s)
         && (r.isHtml <==> c.isHtml(s))
         && (r.isHtml ==> r.facts.refPath in c.imgSrcs(s))
         && (!r.isHtml ==> r.facts.refPath == s)
  }

  /** Every loaded record is a dict with distinct keys. */
  predicate Records(docs: seq<Doc>)
  {
    forall i, j | 0 <= i < |docs| && 0 <= j < |docs[i].records| ::
      docs[i].records[j].Obj? && WellFormed(docs[i].records[j])
  }

  lemma LeafRefsFound(c: Config, disk: Disk, docs: seq<Doc>, i: nat, j: nat, e: Leaf)
    requires Loaded(docs) && Records(docs)
    requires i < |docs| && j < |docs[i].records|
    requires e in Walk(docs[i].records[j], [])
    ensures forall r | r in LeafRefs(c, disk, i, docs[i].kind, j, e) :: Found(c, disk, docs, r)
  {
    var rec := docs[i].records[j];
    WalkThenGet(rec);
    assert e.address[0].Key? by {
      FirstStepOfObject(rec, e.address);
    }
    if e.value.Str? && MentionsImage(e.value.s) {
      var s := e.value.s;
      forall r | r in LeafRefs(c, disk, i, docs[i].kind, j, e) ensures Found(c, disk, docs, r) {
        assert RecordOf(docs, r) == Some(j);
        assert Content(docs, r) == Some(s);
      }
    }
  }

  /** Reading a dict starts with a key. */
  lemma FirstStepOfObject(v: Value, a: seq<Step>)
    requires v.Obj? && Get(v, a).Some?
    ensures a != [] && a[0].Key?
  {
  }

  lemma {:induction false} ScanLeavesFound(c: Config, disk: Disk, docs: seq<Doc>, i: nat, j: nat, leaves: seq<Leaf>)
    requires Loaded(docs) && Records(docs)
    requires i < |docs| && j < |docs[i].records|
    requires forall e | e in leaves :: e in Walk(docs[i].records[j], [])
    ensures forall r | r in ScanLeaves(c, disk, i, docs[i].kind, j, leaves) :: Found(c, disk, docs, r)
    decreases |leaves|
  {
    if leaves != [] {
      ScanLeavesFound(c, disk, docs, i, j, leaves[..|leaves| - 1]);
      LeafRefsFound(c, disk, docs, i, j, leaves[|leaves| - 1]);
    }
  }

  lemma {:induction false} ScanRecordsFound(c: Config, disk: Disk, docs: seq<Doc>, i: nat, n: nat)
    requires Loaded(docs) && Records(docs)
    requires i < |docs| && n <= |docs[i].records|
    ensures forall r | r in ScanRecords(c, disk, i, docs[i].kind, docs[i].records[..n]) :: Found(c, disk, docs, r)
  {
    if n > 0 {
      ScanRecordsFound(c, disk, docs, i, n - 1);
      ScanLeavesFound(c, disk, docs, i, n - 1, Walk(docs[i].records[n - 1], []));
      ScanRecordsNext(c, disk, i, docs[i].kind, docs[i].records, n - 1);
    }
  }

  /** Every reference the scan creates satisfies `Found`. */
  lemma {:induction false} ScanFound(c: Config, disk: Disk, docs: seq<Doc>, n: nat)
    requires Loaded(docs) && Records(docs) && n <= |docs|
    ensures forall r | r in Scan(c, disk, docs, n) :: Found(c, disk, docs, r)
  {
    if n > 0 {
      ScanFound(c, disk, docs, n - 1);
      ScanRecordsFound(c, disk, docs, n - 1, |docs[n - 1].records|);
      assert docs[n - 1].records[..|docs[n - 1].records|] == docs[n - 1].records;
    }
  }

  /** The leaf scan keeps the references of every leaf. */
  lemma {:induction false} ScanLeavesHas(c: Config, disk: Disk, doc: nat, kind: Kind, line: nat, leaves: seq<Leaf>, k: nat)
    requires k < |leaves|
    ensures forall r | r in LeafRefs(c, disk, doc, kind, line, leaves[k]) :: r in ScanLeaves(c, disk, doc, kind, line, leaves)
    decreases |leaves|
  {
    if k < |leaves| - 1 {
      ScanLeavesHas(c, disk, doc, kind, line, leaves[..|leaves| - 1], k);
    }
  }

  /** The record scan keeps the references of every record. */
  lemma {:induction false} ScanRecordsHas(c: Config, disk: Disk, doc: nat, kind: Kind, records: seq<Value>, j: nat)
    requires j < |records|
    ensures forall r | r in ScanLeaves(c, disk, doc, kind, j, Walk(records[j], [])) ::
      r in ScanRecords(c, disk, doc, kind, records)
    decreases |records|
  {
    if j < |records| - 1 {
      ScanRecordsHas(c, disk, doc, kind, records[..|records| - 1], j);
    }
  }

  /** The scan of the files keeps the references of every file. */
  lemma {:induction false} ScanHas(c: Config, disk: Disk, docs: seq<Doc>, n: nat, i: nat)
    requires i < n <= |docs|
    ensures forall r | r in ScanRecords(c, disk, i, docs[i].kind, docs[i].records) :: r in Scan(c, disk, docs, n)
    decreases n
  {
    if i < n - 1 {
      ScanHas(c, disk, docs, n - 1, i);
    }
  }

  /** The image paths a string leaf names: the `src` of every `<img>` of an
      HTML chunk, or else the string itself. */
  function LeafPaths(c: Config, s: string): seq<string>
  {
    if c.isHtml(s) then c.imgSrcs(s) else [s]
  }

  /** One reference per image path a leaf names: each `src` of an HTML
      chunk, or else the whole string. */
  lemma LeafRefsCover(c: Config, disk: Disk, doc: nat, kind: Kind, line: nat, a: seq<Step>, s: string, p: string)
    requires MentionsImage(s) && p in LeafPaths(c, s)
    ensures exists r | r in LeafRefs(c, disk, doc, kind, line, Leaf(a, Str(s))) ::
      r.doc == doc && r.address == a && r.facts.refPath == p
  {
    var refs := LeafRefs(c, disk, doc, kind, line, Leaf(a, Str(s)));
    if c.isHtml(s) {
      var srcs := Dedup(c.imgSrcs(s));
      var k :| 0 <= k < |srcs| && srcs[k] == p;
      assert refs[k].facts.refPath == p;
      assert refs[k] in refs;
    } else {
      assert refs[0] in refs;
    }
  }

  /** The scan finds every reference: each string leaf of a record, at an
      address the walker descends, contributes all its references, so each
      image path the leaf names has a reference at that leaf. */
  lemma ScanComplete(c: Config, disk: Disk, docs: seq<Doc>, i: nat, j: nat, a: seq<Step>, s: string)
    requires i < |docs| && j < |docs[i].records| && docs[i].records[j].Obj?
    requires Entered(docs[i].records[j], a) && Get(docs[i].records[j], a) == Some(Str(s))
    ensures forall r | r in LeafRefs(c, disk, i, docs[i].kind, j, Leaf(a, Str(s))) :: r in Scan(c, disk, docs, |docs|)
    ensures MentionsImage(s) ==> forall p | p in LeafPaths(c, s) ::
      exists r | r in Scan(c, disk, docs, |docs|) :: r.doc == i && r.address == a && r.facts.refPath == p
  {
    var rec := docs[i].records[j];
    var e := Leaf(a, Str(s));
    WalkComplete(rec, [], a, Str(s));
    assert [] + a == a;
    var w := Walk(rec, []);
    var k :| 0 <= k < |w| && w[k] == e;
    ScanLeavesHas(c, disk, i, docs[i].kind, j, w, k);
    ScanRecordsHas(c, disk, i, docs[i].kind, docs[i].records, j);
    ScanHas(c, disk, docs, |docs|, i);
    if MentionsImage(s) {
      forall p | p in LeafPaths(c, s)
        ensures exists r | r in Scan(c, disk, docs, |docs|) :: r.doc == i && r.address == a && r.facts.refPath == p
      {
        LeafRefsCover(c, disk, i, docs[i].kind, j, a, s, p);
      }
    }
  }

  /** The consequence for the source as written: no reference the scan
      finds in a `.json` file can be read or written back. */
  lemma ScanJsonRefsFailAsWritten(c: Config, disk: Disk, docs: seq<Doc>, r: Ref, s: string)
    requires Loaded(docs) && Records(docs)
    requires r in Scan(c, disk, docs, |docs|) && r.doc < |docs| && docs[r.doc].kind == JsonFile
    ensures Content(docs, r).Some?
    ensures ContentAsWritten(docs, r).None? && PushAsWritten(docs, r, s).None?
  {
    ScanFound(c, disk, docs, |docs|);
    JsonAsWrittenFails(docs, r, s);
  }
}
