/** The facts an image reference derives from its path once the file system
    is abstracted (`ImageReference.set_editable_attributes`): where the image
    is found on disk, how it is encoded, whether its extension matches that
    encoding, its content hash, and the name of its `.webp` sibling. */
module Refs {
  import opened Base
  import opened Paths

  newtype byte = x: int | 0 <= x < 256
  type Bytes = seq<byte>

  /** The files on disk, by normalised path. */
  type Disk = map<string, Bytes>

  /** An encoding name as `imghdr` or a MIME subtype spells it. */
  type Ext = e: string | PlainExtension(e) witness "png"

  /** The outside world the compressor consults, as oracles:
      `sniff` is `imghdr.what` on a file's bytes, `mimeSubtype` the part of
      `mimetypes.guess_type(path)[0]` after the '/', `digest` the MD5 hex
      digest, `quote`/`unquote` percent-encoding (section 2.1 of RFC 3986),
      `isHtml`/`imgSrcs` the HTML parser (does the text hold a tag, and the
      `src` of every `<img>` in document order), and `encode` one run of the
      webp encoder on an image's bytes (None when the input file is
      missing). `reMatch(pattern, s)` is `re.match(pattern, s)` is not None,
      or None when the pattern does not compile (`re.error`). */
  datatype Config = Config(
    worldFolder: string,
    coreFolder: string,
    sniff: Bytes -> Option<Ext>,
    mimeSubtype: string -> Option<Ext>,
    digest: Bytes -> string,
    quote: string -> string,
    unquote: string -> string,
    isHtml: string -> bool,
    imgSrcs: string -> seq<string>,
    encode: Option<Bytes> -> Encoded,
    reMatch: (string, string) -> Option<bool>)

  /** What one encoder run leaves behind: its exit code, and the file it
      wrote, if any. */
  datatype Encoded = Encoded(code: int, output: Option<Bytes>)

  /** The editable attributes of an image reference. `pathOnDisk` is
      `img_path_on_disk` (`img_exists` is `pathOnDisk.Some?`); `webpPath` and
      `webpCopyExists` are None while the attribute was never assigned. */
  datatype Facts = Facts(
    refPath: string,
    inWorld: bool,
    pathOnDisk: Option<string>,
    encoding: Option<string>,
    hash: Option<string>,
    isWebp: bool,
    webpPath: Option<string>,
    webpCopyExists: Option<bool>,
    correctExtension: Option<bool>,
    externalLink: bool)

  /** The attributes a new reference has before its first resolution. */
  const Initial := Facts("", false, None, None, None, false, None, None, None, false)

  // ---------------------------------------------------------------------
  // Resolution on disk
  // ---------------------------------------------------------------------

  /** The three places a reference may point to, in the order they are
      tried: the literal path, the path below the core data folder, and the
      percent-decoded path. */
  function Candidates(c: Config, path: string): seq<string>
  {
    [path, Join(c.coreFolder, path), c.unquote(path)]
  }

  /** The first candidate that is a file on disk, if any. */
  function Locate(c: Config, disk: Disk, path: string): (r: Option<string>)
    ensures r.Some? <==> exists k | 0 <= k < 3 :: Candidates(c, path)[k] in disk
    ensures r.Some? ==> r.value in disk && exists k | 0 <= k < 3 ::
      && r.value == Candidates(c, path)[k]
      && forall j | 0 <= j < k :: Candidates(c, path)[j] !in disk
  {
    var cs := Candidates(c, path);
    if cs[0] in disk then Some(cs[0])
    else if cs[1] in disk then Some(cs[1])
    else if cs[2] in disk then Some(cs[2])
    else None
  }

  /** The encoding of an existing file: the sniffed format when there is
      one, else the MIME subtype of its name, lower-cased either way. */
  function Encoding(c: Config, disk: Disk, p: string): (r: Option<string>)
    requires p in disk
    ensures r.Some? ==> Lower(r.value) == r.value && PlainExtension(r.value)
    ensures c.sniff(disk[p]).Some? ==> r == Some(Lower(c.sniff(disk[p]).value))
    ensures c.sniff(disk[p]).None? ==> r.Some? == c.mimeSubtype(p).Some?
    ensures c.sniff(disk[p]).None? && c.mimeSubtype(p).Some? ==> r == Some(Lower(c.mimeSubtype(p).value))
  {
    match c.sniff(disk[p])
    case Some(e) =>
      LowerIdempotent(e);
      LowerPlain(e);
      Some(Lower(e))
    case None =>
      match c.mimeSubtype(p)
      case Some(m) =>
        LowerIdempotent(m);
        LowerPlain(m);
        Some(Lower(m))
      case None => None
  }

  /** The extension rule: a `jpeg` file may be named `.jpg` or `.jpeg`; any
      other encoding must be the (lower-cased) extension itself. */
  predicate ExtensionMatches(encoding: string, ext: string)
  {
    if encoding == "jpeg" then Lower(ext) == "jpg" || Lower(ext) == "jpeg"
    else Lower(ext) == encoding
  }

  /** `correct_extension`: undefined without an encoding, otherwise whether
      the extension of the file on disk matches it. */
  function CorrectExtension(encoding: Option<string>, diskPath: string): Option<bool>
  {
    match encoding
    case None => None
    case Some(e) => Some(ExtensionMatches(e, Drop1(Suffix(diskPath))))
  }

  /** Python's `s[1:]`. */
  function Drop1(s: string): string
  {
    if s == [] then [] else s[1..]
  }

  // ---------------------------------------------------------------------
  // The `.webp` sibling
  // ---------------------------------------------------------------------

  /** No two hyphens in a row. */
  predicate NoRuns(s: string)
  {
    forall i | 0 <= i < |s| - 1 :: !(s[i] == '-' && s[i + 1] == '-')
  }

  /** `re.sub('-+', '-', s)`: every run of hyphens becomes one hyphen. */
  function Collapse(s: string): (r: string)
    ensures |r| <= |s| && (r == [] <==> s == [])
    ensures s != [] ==> r[0] == s[0]
    ensures NoRuns(r)
  {
    if |s| < 2 then s
    else if s[0] == '-' && s[1] == '-' then Collapse(s[1..])
    else
      var r := Collapse(s[1..]);
      assert NoRuns([s[0]] + r) by {
        forall i | 0 <= i < |r| ensures !(([s[0]] + r)[i] == '-' && ([s[0]] + r)[i + 1] == '-') {
          if i > 0 {
            assert ([s[0]] + r)[i] == r[i - 1] && ([s[0]] + r)[i + 1] == r[i];
          }
        }
      }
      [s[0]] + r
  }

  /** The equations that determine `re.sub('-+', '-', s)`: a hyphen
      followed by a hyphen disappears, any other character is kept and the
      rest collapsed. */
  lemma CollapseEquations(x: char, t: string)
    ensures Collapse([]) == []
    ensures Collapse("--" + t) == Collapse("-" + t)
    ensures !StartsWith([x] + t, "--") ==> Collapse([x] + t) == [x] + Collapse(t)
  {
    assert ("--" + t)[1..] == "-" + t;
    assert ([x] + t)[1..] == t;
  }

  /** The characters of `s` other than hyphens, in order. */
  function NonHyphens(s: string): string
  {
    if s == [] then [] else (if s[0] == '-' then [] else [s[0]]) + NonHyphens(s[1..])
  }

  /** Collapsing only ever removes hyphens. */
  lemma {:induction false} CollapseKeepsText(s: string)
    ensures NonHyphens(Collapse(s)) == NonHyphens(s)
  {
    if |s| >= 2 {
      CollapseKeepsText(s[1..]);
      if !(s[0] == '-' && s[1] == '-') {
        assert ([s[0]] + Collapse(s[1..]))[1..] == Collapse(s[1..]);
      }
    }
  }

  /** A text with no run of two hyphens is left as it is. */
  lemma {:induction false} CollapseWithoutRuns(s: string)
    requires NoRuns(s)
    ensures Collapse(s) == s
  {
    if |s| >= 2 {
      assert NoRuns(s[1..]) by {
        forall i | 0 <= i < |s[1..]| - 1 ensures !(s[1..][i] == '-' && s[1..][i + 1] == '-') {
          assert s[1..][i] == s[i + 1] && s[1..][i + 1] == s[i + 2];
        }
      }
      CollapseWithoutRuns(s[1..]);
      assert s == [s[0]] + s[1..];
    }
  }

  /** The sanitised stem of the `.webp` sibling: spaces become hyphens, the
      text is lower-cased, hyphen runs are collapsed, then percent-encoded. */
  function WebpStem(c: Config, diskPath: string): string
  {
    c.quote(Collapse(Lower(ReplaceAll(Stem(diskPath), " ", "-"))))
  }

  /** `ref_path.with_stem(stem).with_suffix(".webp")`. */
  function WebpPath(refPath: string, stem: string): string
  {
    WithSuffix(WithStem(refPath, stem), ".webp")
  }

  lemma WebpIsPlain()
    ensures PlainExtension("webp") && "." + "webp" == ".webp"
  {
    var w := "webp";
    forall j | 0 <= j < |w| ensures w[j] != '.' && w[j] != '/' {
      assert w[j] in {'w', 'e', 'b', 'p'};
    }
  }

  /** The sibling sits in the reference's own directory, under the
      sanitised stem, with the suffix `.webp`. */
  lemma WebpPathShape(refPath: string, stem: string)
    requires Suffix(refPath) != ""
    requires stem != [] && Free(stem, '/')
    ensures WebpPath(refPath, stem) == Dir(refPath) + stem + ".webp"
    ensures Suffix(WebpPath(refPath, stem)) == ".webp"
    ensures Stem(WebpPath(refPath, stem)) == stem
    ensures Dir(WebpPath(refPath, stem)) == Dir(refPath)
  {
    var ext := PathParts(refPath);
    var d := Dir(refPath);
    var q := WithStem(refPath, stem);
    Rebuild(refPath, stem, d, "." + ext);
    DotJoin(d, stem, ext);
    StemSuffixOfName(q, d, stem, ext);
    var w := WebpPath(refPath, stem);
    Rebuild2(q, ".webp", d, stem);
    WebpIsPlain();
    DotJoin(d, stem, "webp");
    StemSuffixOfName(w, d, stem, "webp");
  }

  // ---------------------------------------------------------------------
  // set_editable_attributes
  // ---------------------------------------------------------------------

  /** The attributes a reference has after `set_editable_attributes(path)`.
      When the path resolves, every attribute is recomputed; when it does
      not, the encoding and the extension verdict are cleared and the hash,
      the webp flag and the sibling keep their previous values. */
  function Resolve(c: Config, disk: Disk, prior: Facts, path: string): (f: Facts)
    ensures f.refPath == path && f.pathOnDisk == Locate(c, disk, path)
    ensures f.externalLink <==> StartsWith(path, "http")
    ensures f.inWorld <==> InFolder(c.worldFolder, path)
    ensures f.pathOnDisk.Some? ==> f.encoding == Encoding(c, disk, f.pathOnDisk.value)
    ensures f.encoding.Some? ==> f.pathOnDisk.Some? && Lower(f.encoding.value) == f.encoding.value
    ensures f.encoding.Some? ==> PlainExtension(f.encoding.value)
    ensures f.correctExtension.Some? <==> f.encoding.Some?
    ensures f.correctExtension.Some? ==>
      f.correctExtension.value == ExtensionMatches(f.encoding.value, Drop1(Suffix(f.pathOnDisk.value)))
    ensures f.pathOnDisk.Some? ==>
      && (f.hash.Some? <==> f.inWorld)
      && (f.hash.Some? ==> f.hash.value == c.digest(disk[f.pathOnDisk.value]))
      && (f.isWebp <==> Lower(Suffix(path)) == ".webp")
      && f.webpPath == Some(WebpPath(path, WebpStem(c, f.pathOnDisk.value)))
      && (f.webpCopyExists.None? <==> f.isWebp)
      && (f.webpCopyExists.Some? ==> (f.webpCopyExists.value <==> f.webpPath.value in disk))
    ensures f.pathOnDisk.None? ==>
      && f.hash == prior.hash && f.isWebp == prior.isWebp
      && f.webpPath == prior.webpPath && f.webpCopyExists == prior.webpCopyExists
      && f.encoding.None? && f.correctExtension.None?
  {
    var inWorld := InFolder(c.worldFolder, path);
    var external := StartsWith(path, "http");
    match Locate(c, disk, path)
    case None =>
      prior.(refPath := path, inWorld := inWorld, pathOnDisk := None,
             encoding := None, correctExtension := None, externalLink := external)
    case Some(p) =>
      var enc := Encoding(c, disk, p);
      var isWebp := Lower(Suffix(path)) == ".webp";
      var webp := WebpPath(path, WebpStem(c, p));
      Facts(
        refPath := path,
        inWorld := inWorld,
        pathOnDisk := Some(p),
        encoding := enc,
        hash := if inWorld then Some(c.digest(disk[p])) else None,
        isWebp := isWebp,
        webpPath := Some(webp),
        webpCopyExists := if isWebp then None else Some(webp in disk),
        correctExtension := CorrectExtension(enc, p),
        externalLink := external)
  }

  /** A path that resolves overwrites every attribute: the result does not
      depend on the reference's history. */
  lemma ResolveForgetsPast(c: Config, disk: Disk, f1: Facts, f2: Facts, path: string)
    requires Locate(c, disk, path).Some?
    ensures Resolve(c, disk, f1, path) == Resolve(c, disk, f2, path)
  {
  }

  /** The extension rule in both directions: `jpeg` accepts exactly `jpg`
      and `jpeg` in any case, every other encoding exactly its own name. */
  lemma ExtensionRule(enc: string, ext: string)
    requires Lower(enc) == enc
    ensures enc == "jpeg" ==> (ExtensionMatches(enc, ext) <==> Lower(ext) in {"jpg", "jpeg"})
    ensures enc != "jpeg" ==> (ExtensionMatches(enc, ext) <==> Lower(ext) == enc)
    ensures ExtensionMatches(enc, enc)
  {
  }

  /** A file named after its own encoding has the correct extension: this is
      what the extension fix relies on. */
  lemma RenamedFileIsCorrect(enc: string, d: string, st: string)
    requires Lower(enc) == enc && PlainExtension(enc)
    requires d == [] || d[|d| - 1] == '/'
    requires st != [] && Free(st, '/')
    ensures CorrectExtension(Some(enc), d + st + "." + enc) == Some(true)
  {
    StemSuffixOfName(d + st + "." + enc, d, st, enc);
    assert Drop1("." + enc) == enc;
  }

  /** Lower-casing twice is lower-casing once. */
  lemma LowerIdempotent(s: string)
    ensures Lower(Lower(s)) == Lower(s)
  {
    assert forall i | 0 <= i < |s| :: LowerChar(LowerChar(s[i])) == LowerChar(s[i]);
  }

  /** Lower-casing keeps an extension plain: it never makes a dot or a
      slash. */
  lemma LowerPlain(s: string)
    requires PlainExtension(s)
    ensures PlainExtension(Lower(s))
  {
    assert forall i | 0 <= i < |s| :: LowerChar(s[i]) != '.' && LowerChar(s[i]) != '/';
  }
}
