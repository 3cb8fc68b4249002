# A verified model of the Foundry VTT world compressor

`vttcompressor.py` shrinks a Foundry VTT world. It loads the world's `.json`
and `.db` files, finds every string that refers to an image, and resolves
each reference against the files on disk. It then repairs the world in
place:

- it repoints legacy `modules/...` paths to `worlds/...`;
- it copies images whose extension does not match their encoding to a
  fresh, correctly suffixed name;
- it consolidates duplicated images (same MD5 hash, several paths) onto the
  first path;
- it converts images to `.webp` and repoints their references;
- it queues unused and replaced images and moves them into the world's
  `_trash` folder.

This project models that core in Dafny and proves what each step promises.

| module | models |
|---|---|
| `Base` | an `Option` type; Python's `startswith`, `in`, ASCII `lower()` and `replace` on strings |
| `Paths` | the parts of `pathlib.PurePath` in use (`name`, `stem`, `suffix`, `with_suffix`, `with_stem`, `parents`); backup and restore naming of documents |
| `Json` | JSON values as `json.load` leaves them; `dict_walker`, `get_nested_dict_recursive`, `edit_nested_dict_recursive` |
| `Refs` | the attributes `ImageReference.set_editable_attributes` derives from a path, with the file system as a map and the libraries as oracles |
| `Docs` | the loaded files; `get_img_ref_content`, `push_updated_content_to_world`; the reference scan `traverse_dict_and_find_all_refs` |
| `Grouping` | the insertion-ordered dicts of lists that the two indexes build |
| `Classify` | the broken references, the lookup by path, the unused images, the two indexes and the duplicated images |
| `Naming` | `find_filename_that_doesnt_exist_yet` |
| `Passes` | the world state, the one action every repair applies to a reference, and `try_to_fix_one_broken_ref` |
| `Repairs` | each repair pass as a function from the state before it to the state it leaves |
| `Compressor` | class `WorldRefs`: its fields change in place, and each method is proved to leave exactly the state its specifying function gives |

The Python objects map onto the model as follows:

- **References are values.** An `ImageReference` is a value held in
  `WorldRefs.refs`. Indexes and lists of references hold positions in that
  sequence. A Python object shared between `all_img_refs` and an index is a
  shared position.
- **Exceptions are a flag.** Where Python raises (`KeyError`, `IndexError`,
  a failing `with_suffix` or `with_stem`, a malformed pattern in `re.match`),
  a pass returns `ok == false` with the state at the moment of the raise. A
  pass stops at the first such failure, and lemmas named `...Stops` prove
  that nothing after it runs. Two defects listed under "## Findings" are
  modelled as written only by their as-written members; the passes and the
  class methods run the corrected behaviour (see "## Left out").
- **Outside code is a parameter.** Every outside library is an oracle in
  `Refs.Config`:
  - `imghdr.what` and `mimetypes.guess_type` (encoding sniffing);
  - `hashlib.md5` (the content hash);
  - `urllib.parse.quote` and `unquote` (percent-encoding, section 2.1 of
    RFC 3986);
  - the BeautifulSoup test for an HTML chunk and its `<img src>` list;
  - the ffmpeg run, which returns an exit code and a written file.
- **Disk and listings are inputs.** The files on disk are a
  `map<string, bytes>`. The listing of the world folder and the iteration
  order of `trash_queue` are method parameters.

## Model

| member | source | states |
|---|---|---|
| Base.Lower | vttcompressor.py:425-436 | `lower()` keeps the length and lower-cases character by character |
| Base.ReplaceAbsent | vttcompressor.py:967-968 | `replace` leaves a text without the pattern unchanged |
| Base.ReplaceWhole | vttcompressor.py:1183-1184 | a content that is exactly the old path becomes exactly the new path |
| Paths.SuffixShape | vttcompressor.py:427 | a non-empty suffix is a dot and a dot-free extension after a non-empty stem, and the path is directory + stem + suffix |
| Paths.StemSuffixOfName | vttcompressor.py:1536 | a name built from a stem and a plain extension reads back exactly that directory, stem and suffix |
| Paths.BackupRoundTrip | vttcompressor.py:1286 | restoring a backup name (dropping the last three characters of its suffix) gives back the document's path; the backup never overwrites the document and stays in its directory |
| Paths.RestoreOf | vttcompressor.py:1384 | a restored name is directory + stem + the suffix without its last three characters |
| Json.WalkSound | vttcompressor.py:21-74 | every leaf the walker yields below `pre` extends `pre`, reads back under it, and is never a dict; a non-dict is yielded whole |
| Json.Walk | vttcompressor.py:21-74 | `dict_walker`: characterised by `Json.WalkSound`, `Json.WalkThenGet` and `Json.WalkComplete` |
| Json.WalkComplete | vttcompressor.py:21-74 | every scalar read from a dict along an address the walker descends (through dicts, and through lists held by dicts) is yielded at that address |
| Json.Get | vttcompressor.py:77-115 | `get_nested_dict_recursive`: characterised by `Json.WalkThenGet` and `Json.EditThenGet` |
| Json.Edit | vttcompressor.py:118-158 | `edit_nested_dict_recursive`: characterised by `Json.EditThenGet` and `Json.EditFrame` |
| Json.WalkThenGet | vttcompressor.py:61-115 | for a dict, every yielded address is non-empty and `get_nested_dict_recursive` at it returns the yielded leaf; a list leaf sits at a list index |
| Json.WalkEdgeShapes | vttcompressor.py:61-74 | an empty dict yields nothing, and a list nested directly in a list is yielded whole at its index |
| Json.KeyPos | vttcompressor.py:112 | the lookup `d[k]` finds the first member with key `k`, or reports none has it |
| Json.EditThenGet | vttcompressor.py:154-158 | after an edit that succeeds, reading the edited address returns the new value |
| Json.EditFrame | vttcompressor.py:154-158 | after an edit, every address that neither extends nor is a prefix of the edited one reads as before |
| Json.SetChildFrame | vttcompressor.py:155 | assigning one key or index leaves every other key or index as it was |
| Naming.FindFilenameThatDoesntExistYet | vttcompressor.py:1498-1541 | the name returned is not an existing file, carries the requested suffix, stays in the directory, and is the first free candidate of stem + k underscores; the recursion terminates on a finite disk |
| Naming.Step | vttcompressor.py:1536-1539 | one step of the search: the candidate is stem + suffix, and the next try has one more underscore on the same stem in the same directory |
| Naming.Shifted | vttcompressor.py:1537-1539 | the first free candidate from `stem_` is the first free one from `stem` when `stem` itself is taken |
| Grouping.FindKey | vttcompressor.py:1225 | `k in d`: the position of the entry with key `k`, or none has it |
| Grouping.Group | vttcompressor.py:1224-1227 | every position in the index comes from the input |
| Grouping.InsertPartition | vttcompressor.py:1224-1227 | one append, to an existing or a newly opened entry, keeps the dict a partition of the positions seen |
| Grouping.AppendPartition | vttcompressor.py:1227 | appending under an existing key keeps the partition |
| Grouping.OpenPartition | vttcompressor.py:1225-1227 | opening a new key at the end keeps the partition |
| Grouping.GroupPartition | vttcompressor.py:1215-1228 | the built dict places every input position exactly once, under its own key, in input order, keys in order of first appearance |
| Grouping.Group2Spec | vttcompressor.py:1058-1065 | the dict of dicts is the index by the first key, each of whose lists is indexed again by the second key |
| Grouping.FirstKeyIsEarliest | vttcompressor.py:1130 | the first key of the dict is the key of the first position: the canonical entry is the one inserted first |
| Grouping.PartitionPlace | vttcompressor.py:1224-1227 | each position sits in exactly the entries of its own key, and in at least one |
| Grouping.TwoKeys | vttcompressor.py:1096 | two positions with different keys make more than one entry |
| Refs.Locate | vttcompressor.py:379-392 | the literal path, then the path under the core data folder, then the percent-decoded path; the first that is a file, or none when no candidate is a file |
| Refs.Encoding | vttcompressor.py:394-407 | the sniffed format when there is one, otherwise the MIME subtype, lower-cased either way; none when neither oracle answers |
| Refs.Collapse | vttcompressor.py:416 | collapsing hyphen runs leaves no run, keeps the first character and never lengthens the text |
| Refs.CollapseKeepsText | vttcompressor.py:416 | collapsing removes only hyphens |
| Refs.CollapseWithoutRuns | vttcompressor.py:416 | a text without hyphen runs is left as it is |
| Refs.CollapseEquations | vttcompressor.py:416 | a hyphen before a hyphen disappears; any other character is kept and the rest collapsed |
| Refs.WebpPathShape | vttcompressor.py:414-419 | the `.webp` sibling is in the reference's directory, has the sanitised stem and the suffix `.webp` |
| Refs.WebpStem | vttcompressor.py:414-419 | the sanitised stem: characterised by `Refs.Collapse`, `Refs.CollapseEquations` and `Refs.CollapseKeepsText` |
| Refs.WebpPath | vttcompressor.py:414-419 | the `.webp` sibling's path: characterised by `Refs.WebpPathShape` |
| Refs.Resolve | vttcompressor.py:375-439 | after `set_editable_attributes(path)`: the path, folder membership and web-link flag are set; the disk path is `Locate`'s; a found file gets the encoding `Encoding` gives for it, hash (inside the world only), webp flag and sibling; a missing one clears encoding and verdict and keeps the rest |
| Refs.ResolveForgetsPast | vttcompressor.py:379-439 | a path that resolves sets every attribute independently of the reference's history |
| Refs.ExtensionRule | vttcompressor.py:424-438 | `jpeg` matches exactly `jpg` and `jpeg` in any case; every other encoding matches exactly its own name |
| Refs.CorrectExtension | vttcompressor.py:424-438 | the extension verdict, None without an encoding: characterised by `Refs.ExtensionRule` and `Refs.RenamedFileIsCorrect` |
| Refs.RenamedFileIsCorrect | vttcompressor.py:434-436 | a file named with its encoding as extension has the correct extension |
| Docs.RecordOf | vttcompressor.py:301-304 | the record of a reference: its line in a `.db` file, the one record of a `.json` file, or none when Python raises |
| Docs.Push | vttcompressor.py:535-538 | a push keeps every file's shape and changes no other file |
| Docs.Content | vttcompressor.py:325-349 | `get_img_ref_content`: characterised by `Docs.PushThenContent`, `Docs.PushFrame` and `Docs.LeafRefsFound` |
| Docs.PushIgnoresFacts | vttcompressor.py:535-538 | where a push writes depends on the reference's place, never on its attributes |
| Docs.PushThenContent | vttcompressor.py:511-538 | after a push, the reference, and every reference at the same leaf, reads back the pushed string |
| Docs.PushFrame | vttcompressor.py:511-538 | a push leaves every reference in another file, another record, or at an unrelated address reading as before |
| Docs.DbAsWrittenAgrees | vttcompressor.py:301-304 | for a `.db` reference, the source's reading and writing are the corrected ones |
| Docs.JsonAsWrittenFails | vttcompressor.py:301-304 | for a `.json` reference starting with a key, the source indexes the one-element list with a string: reading and writing both raise |
| Docs.Dedup | vttcompressor.py:747-755 | the `src` strings without repeats, exactly those that occur |
| Docs.DedupDistinct | vttcompressor.py:747-755 | a list without repeats is its own deduplication |
| Docs.FirstIndex | vttcompressor.py:747-755 | the position of a string's first occurrence: it holds the string and no earlier position does |
| Docs.DedupOrder | vttcompressor.py:747-755 | the `src` strings keep the order of their first occurrences |
| Docs.ScanLeavesNext | vttcompressor.py:734-778 | scanning one more leaf appends exactly that leaf's references |
| Docs.ScanRecordsNext | vttcompressor.py:687-693 | scanning one more record appends the references of its leaves |
| Docs.LeafRefsFound | vttcompressor.py:730-778 | each reference made from a leaf reads back an image-mentioning string; an HTML one has a `src` as path and no line in a `.json` file, a plain one has the whole string as path and line 0; its attributes are a first resolution |
| Docs.ScanFound | vttcompressor.py:665-778 | every reference the scan creates has the properties above |
| Docs.LeafRefs | vttcompressor.py:730-778 | the references one leaf yields: characterised by `Docs.LeafRefsFound` and `Docs.LeafRefsCover` |
| Docs.Scan | vttcompressor.py:665-693 | `find_all_img_references_in_world`: characterised by `Docs.ScanFound` and `Docs.ScanComplete` |
| Docs.LeafRefsCover | vttcompressor.py:740-778 | a leaf mentioning an image yields a reference at that leaf for each `src` of an HTML chunk, or for the whole string otherwise |
| Docs.ScanLeavesHas | vttcompressor.py:697-778 | the leaf scan keeps the references of every leaf |
| Docs.ScanRecordsHas | vttcompressor.py:689-693 | the record scan keeps the references of every record |
| Docs.ScanHas | vttcompressor.py:689-693 | the scan of the files keeps the references of every file |
| Docs.ScanComplete | vttcompressor.py:665-778 | the scan finds every reference: each string leaf of a record, at an address the walker descends, contributes all its references, and each image path it names has a reference at that leaf |
| Docs.ScanJsonRefsFailAsWritten | vttcompressor.py:347 | a reference the scan finds in a `.json` file reads back correctly in the model, yet the source's reading and writing both raise |
| Classify.BrokenRefs | vttcompressor.py:925-931 | a reference is listed iff it has no file and is not a web link, or its file is queued for the trash; the list is in order |
| Classify.RefsWithPath | vttcompressor.py:1309-1313 | a reference is listed iff its path is the one searched, in list order |
| Classify.Uses | vttcompressor.py:877-879 | the counter is zero iff no reference found its file at the image |
| Classify.ZeroUseSpec | vttcompressor.py:882-886 | the images kept are exactly the listed ones no reference uses, each once |
| Classify.UnusedExact | vttcompressor.py:853-886 | the unused images are exactly the listed images that no reference's disk path equals, without repeats |
| Classify.Unused | vttcompressor.py:853-886 | `get_all_unused_images_in_world_folder`: characterised by `Classify.UnusedExact` |
| Classify.ByImgPartition | vttcompressor.py:1189-1228 | the index by path places every reference once, under its own path, in list order |
| Classify.ByImg | vttcompressor.py:1189-1228 | `get_refs_indexed_by_img`: characterised by `Classify.ByImgPartition` |
| Classify.ByHashByImg | vttcompressor.py:1022-1067 | `get_refs_indexed_by_hash_by_img`: characterised by `Classify.ByHashByImgPartition` |
| Classify.ByHashByImgPartition | vttcompressor.py:1022-1067 | both levels of the hash index partition the references: by hash, then each hash's references by path |
| Classify.Duplicated | vttcompressor.py:1095-1100 | an entry is kept iff it has more than one path and a hash that is not None |
| Classify.DuplicatedExact | vttcompressor.py:1069-1102 | a hash is reported duplicated iff it is not None and two references with that hash have different paths |
| Classify.DuplicatedSound | vttcompressor.py:1095-1100 | a reported hash has two references with different paths |
| Classify.DuplicatedComplete | vttcompressor.py:1095-1100 | a hash with two references at different paths is reported |
| Passes.Retarget | vttcompressor.py:1138-1139 | re-resolving and pushing changes neither the disk nor the trash queue nor the number of references |
| Passes.Apply | vttcompressor.py:1135-1139 | one action changes neither the disk nor the trash queue nor the number of references |
| Passes.ApplyEffect | vttcompressor.py:1180-1187 | a finished action re-resolves the reference at its target, pushes the replaced text into its leaf, and changes no other reference |
| Passes.RenamePlainRef | vttcompressor.py:1183-1187 | a plain reference whose content is the old path ends up holding exactly the new path |
| Passes.ApplyAll | vttcompressor.py:1135-1139 | the loop over references changes neither the disk nor the trash queue |
| Passes.ApplyAllNext | vttcompressor.py:1135-1139 | one more reference of the loop is one more action on the state reached |
| Passes.ApplyAllStops | vttcompressor.py:1135-1139 | an exception ends the loop: later references are not visited |
| Passes.OverwroteAll | vttcompressor.py:826-828 | after a loop that pushes one text, every visited leaf holds that text |
| Passes.ApplyAllEffect | vttcompressor.py:1135-1139 | over references at independent leaves, the loop does to each exactly what the action does to it alone, and nothing else |
| Passes.ApplyFrame | vttcompressor.py:1136-1139 | an action, finished or not, touches only its own reference |
| Passes.ApplyAllFrame | vttcompressor.py:1135-1139 | a loop, finished or not, touches only the references it walks |
| Passes.RenameAllEffect | vttcompressor.py:826-828 | renaming over independent leaves re-resolves each at the target and replaces the old path in each one's own content |
| Passes.ApplyAllRetargets | vttcompressor.py:1135-1139 | after a loop with a fixed target, every visited reference points at the target and is found where it is found |
| Passes.ApplyRetargets | vttcompressor.py:1138 | one action with a fixed target leaves its reference at that target |
| Passes.LegacyFix | vttcompressor.py:956-972 | fixed iff the path starts with `modules` and its `worlds` variant (every occurrence replaced) is a file; otherwise nothing changes; when fixed, the reference resolves there, its content has the path replaced, and no other reference changes |
| Passes.TryToFixOneBrokenRef | vttcompressor.py:933-972 | `try_to_fix_one_broken_ref`: characterised by `Passes.LegacyFix` |
| Repairs.ExtTarget | vttcompressor.py:814-817 | the copy's name is not on disk, has the suffix `.<encoding>` and the directory of the path |
| Repairs.ExtStep | vttcompressor.py:805-828 | one path of the fix never removes or overwrites a file and leaves the trash queue alone |
| Repairs.ExtStepAsWritten | vttcompressor.py:805-828 | the same for the fix as written |
| Repairs.ExtPass | vttcompressor.py:780-828 | the whole fix never removes or overwrites a file and leaves the trash queue alone |
| Repairs.ExtPassNext | vttcompressor.py:805-828 | one more path of the fix is one more step on the state reached |
| Repairs.ExtPassStops | vttcompressor.py:805-828 | an exception ends the fix |
| Repairs.ByImgBuckets | vttcompressor.py:1224-1227 | every entry of the index by path holds at least one reference |
| Repairs.FixIncorrectFileExtensions | vttcompressor.py:780-828 | the fix over the index by path never removes or overwrites a file and leaves the trash queue alone |
| Repairs.ExtStepEffect | vttcompressor.py:810-828 | a wrongly named image is copied to a fresh name with the right suffix; every reference of the path is re-resolved there and has the old path replaced in its own content; no other reference changes |
| Repairs.ExtStepUnfold | vttcompressor.py:810-828 | the fix, once it acts, is a copy followed by the rename over every reference of the path |
| Repairs.ExtStepAsWrittenUnfold | vttcompressor.py:810-828 | the fix as written, once it acts, is a copy followed by pushing the first reference's new text to all |
| Repairs.ExtFixCorrects | vttcompressor.py:810-828 | after the fix, every reference of the path finds the copy and has the correct extension, when the encoding was sniffed from the bytes |
| Repairs.ExtAsWrittenCopiesFirst | vttcompressor.py:811-828 | as written, every reference of the path is given the first reference's text |
| Repairs.ExtAsWrittenNoneSuffix | vttcompressor.py:810-822 | as written, an image of unknown encoding is copied to a name with the suffix `.None` |
| Repairs.ExtSkipsUnknown | vttcompressor.py:810 | the intended fix leaves an image with an unknown or correct verdict alone |
| Repairs.FixOneSet | vttcompressor.py:1104-1141 | consolidating a set changes no file on disk and only adds to the trash queue |
| Repairs.Redirects | vttcompressor.py:1133-1141 | the loop over the non-first paths changes no file on disk and only adds to the trash queue |
| Repairs.RedirectStep | vttcompressor.py:1134-1141 | one non-first path: its references are redirected to the main image, then the path, and nothing else, is queued |
| Repairs.RedirectsNext | vttcompressor.py:1133-1141 | one more path of the set is one more step on the state reached |
| Repairs.RedirectsStops | vttcompressor.py:1133-1141 | an exception ends the loop over the paths |
| Repairs.Secondary | vttcompressor.py:1131 | every non-first path of the set is among the paths to replace |
| Repairs.SecondaryNext | vttcompressor.py:1131 | one more path adds exactly that path |
| Repairs.RedirectsTrashStep | vttcompressor.py:1141 | each finished path adds exactly that path to the queue |
| Repairs.RedirectedGrows | vttcompressor.py:1135-1139 | redirecting one more path's references extends the redirected set by that path |
| Repairs.RedirectsEffect | vttcompressor.py:1133-1141 | a finished loop queued exactly the non-first paths, pointed their references at the main image, and changed no other reference |
| Repairs.FixOneSetEffect | vttcompressor.py:1130-1141 | for a set from the hash index: exactly the non-first paths are queued, their references point at the first path and are found there, and the references under the first path are untouched |
| Repairs.MainNotReplaced | vttcompressor.py:1130-1131 | no reference under the first path sits under a non-first path |
| Repairs.WebpStep | vttcompressor.py:1249-1266 | one path of the conversion only adds to the trash queue |
| Repairs.WebpPass | vttcompressor.py:1249-1266 | the conversion only adds to the trash queue |
| Repairs.WebpPassNext | vttcompressor.py:1249-1266 | one more path of the conversion is one more step on the state reached |
| Repairs.WebpPassStops | vttcompressor.py:1249-1266 | an exception ends the conversion |
| Repairs.ConvertAllImagesToWebp | vttcompressor.py:1230-1266 | the conversion over the index by path only adds to the trash queue |
| Repairs.WebpStepQueues | vttcompressor.py:1258-1266 | a converted path is queued; the disk is the encoder's outcome; when the copy is missing or the encoder failed, no reference or document changes |
| Repairs.WebpFailureBreaksRefs | vttcompressor.py:1261-1266 | when the encoder fails, the path is queued all the same and every reference that found its file there becomes broken |
| Repairs.WebpStepEffect | vttcompressor.py:1263-1266 | when the copy exists and the encoder succeeded, every reference of the path is re-resolved at its `.webp` sibling with the path replaced in its own content, and the path is queued |
| Repairs.TrashStep | vttcompressor.py:1330-1343 | one queue entry changes only the disk, as `TrashOne` says (the file or its unquoted name, moved when the world-folder pattern matches), or raises (`with_stem` or `re.match`) and changes nothing |
| Repairs.FolderMatch | vttcompressor.py:1341-1342 | the world-folder guard: characterised by `Repairs.GuardIsSubstring`, `Repairs.DestInWorld` and `Base.DotStarMatchSpec` |
| Repairs.MaybeMove | vttcompressor.py:1341-1343 | the guarded rename: characterised by `Repairs.TrashOneMoves` and `Repairs.MaybeMoveGuard` |
| Repairs.TrashOne | vttcompressor.py:1335-1343 | one queue entry: characterised by `Repairs.TrashOneMoves`, `Repairs.TrashStep` and `Repairs.TrashGuard` |
| Repairs.TrashPassNext | vttcompressor.py:1330-1343 | one more queue entry is one more step on the state reached |
| Repairs.TrashPass | vttcompressor.py:1330-1343 | the move changes neither documents, references nor the queue |
| Repairs.TrashPassStops | vttcompressor.py:1330-1343 | an exception ends the loop over the queue |
| Base.DotStarMatchSpec | vttcompressor.py:1341-1342 | `re.match('.*' + l + '.*', s)` for a literal `l` succeeds exactly when `l` occurs in `s` with no newline before it |
| Base.DotStarMatchContains | vttcompressor.py:1341-1342 | such a match is a substring occurrence, and on a text without newlines the two agree |
| Repairs.DestInWorld | vttcompressor.py:1341-1343 | every destination is in the world's `_trash` folder, and a world folder without pattern characters matches it |
| Repairs.RejectedIsNoDest | vttcompressor.py:1341-1343 | with such a folder, a path the guard rejects is no destination of the move |
| Repairs.GuardIsSubstring | vttcompressor.py:1341-1342 | with such a folder, the guard accepts only paths containing the folder, and on newline-free paths exactly those |
| Repairs.MaybeMoveGuard | vttcompressor.py:1341-1343 | one move keeps any file the guard rejects and no move lands on, with its bytes |
| Repairs.TrashGuard | vttcompressor.py:1330-1343 | the whole move never moves or overwrites a file the guard rejects and no move lands on |
| Repairs.TrashOneMoves | vttcompressor.py:1335-1343 | for a queued file that exists: a raising guard stops the loop, a rejected file stays, an accepted one ends up in `_trash` with its bytes and is gone from its old place |
| Repairs.AddUnusedExact | vttcompressor.py:888-905 | the queue gains exactly the listed images that no reference uses; references and documents are unchanged |
| Repairs.AddUnused | vttcompressor.py:888-905 | `add_unused_images_to_trash_queue`: characterised by `Repairs.AddUnusedExact` |
| Repairs.FixBrokenStep | vttcompressor.py:995-996 | one legacy fix adds at most one to the counter |
| Repairs.FixBroken | vttcompressor.py:994-996 | the counter never exceeds the number of references tried |
| Repairs.FixBrokenStops | vttcompressor.py:995-996 | an exception ends the loop over the broken references |
| Repairs.FixBrokenFrame | vttcompressor.py:990-996 | the loop touches only the broken references it was given, and neither the disk nor the queue |
| Repairs.TryToFixAllKeepsHealthy | vttcompressor.py:974-1000 | references that were not broken are never touched |
| Repairs.TryToFixAllBrokenRefs | vttcompressor.py:974-1000 | `try_to_fix_all_broken_refs`: characterised by `Repairs.FixBroken`, `Repairs.FixBrokenFrame` and `Repairs.TryToFixAllKeepsHealthy` |
| Compressor.WorldRefs.constructor | vttcompressor.py:593-663 | given the files as `load_data` leaves them (one record per `.json` file, `.json` files first), the queue starts empty and the references are the scan of all files |
| Compressor.WorldRefs.FindAllImgReferencesInWorld | vttcompressor.py:665-695 | the references become the scan of all files, file by file and record by record |
| Compressor.WorldRefs.ScanFile | vttcompressor.py:689-693 | the records of one file are scanned in order |
| Compressor.WorldRefs.TraverseDictAndFindAllRefs | vttcompressor.py:697-778 | the references of each leaf of one record are appended in order |
| Compressor.WorldRefs.GetRefsIndexedByImg | vttcompressor.py:1189-1228 | the loop builds the index by path |
| Compressor.WorldRefs.GetRefsIndexedByHashByImg | vttcompressor.py:1022-1067 | the loop builds the index by hash, then path |
| Compressor.WorldRefs.GetDuplicatedImages | vttcompressor.py:1069-1102 | the loop keeps the duplicated entries of the hash index |
| Compressor.WorldRefs.GetBrokenRefs | vttcompressor.py:907-931 | the loop lists the broken references |
| Compressor.WorldRefs.FindRefsByImgPath | vttcompressor.py:1293-1313 | the loop lists the references with the path searched |
| Compressor.WorldRefs.GetAllUnusedImagesInWorldFolder | vttcompressor.py:853-886 | the three loops return the unused images |
| Compressor.WorldRefs.ListImages | vttcompressor.py:871-873 | every listed image gets a zero counter, in first-listed order |
| Compressor.WorldRefs.CountUses | vttcompressor.py:877-879 | each counter ends at the number of references that found that image |
| Compressor.WorldRefs.AddUnusedImagesToTrashQueue | vttcompressor.py:888-905 | the queue gains the unused images and nothing else changes |
| Compressor.WorldRefs.SetEditableAttributes | vttcompressor.py:351-439 | reference `i` is resolved again at the path; nothing else changes |
| Compressor.WorldRefs.PushUpdatedContentToWorld | vttcompressor.py:511-538 | the leaf is overwritten in place, or Python raises and nothing changes |
| Compressor.WorldRefs.ApplyAction | vttcompressor.py:1136-1139 | reading, re-resolving and pushing leave the state `Passes.Apply` gives |
| Compressor.WorldRefs.UpdateOneRefToWebp | vttcompressor.py:1165-1187 | the reference is moved to its `.webp` sibling as `Passes.Apply` says |
| Compressor.WorldRefs.ApplyNext | vttcompressor.py:1135-1139 | one iteration of a loop over references, and the end of the loop when it raises |
| Compressor.WorldRefs.ApplyToAll | vttcompressor.py:1135-1139 | the loop over references leaves the state `Passes.ApplyAll` gives |
| Compressor.WorldRefs.TryToFixOneBrokenRef | vttcompressor.py:933-972 | the legacy fix leaves the state and verdict `Passes.TryToFixOneBrokenRef` gives |
| Compressor.WorldRefs.FixNext | vttcompressor.py:995-996 | one iteration of the legacy loop, and the end of the loop when it raises |
| Compressor.WorldRefs.TryToFixAllBrokenRefs | vttcompressor.py:974-1000 | the legacy loop leaves the state and count `Repairs.TryToFixAllBrokenRefs` gives |
| Compressor.WorldRefs.FixExtensionOf | vttcompressor.py:806-828 | one path of the extension fix leaves the state `Repairs.ExtStep` gives |
| Compressor.WorldRefs.FixIncorrectFileExtensions | vttcompressor.py:780-828 | the extension fix leaves the state `Repairs.FixIncorrectFileExtensions` gives |
| Compressor.WorldRefs.FixOneSetOfDuplicatedImages | vttcompressor.py:1104-1141 | the consolidation leaves the state `Repairs.FixOneSet` gives |
| Compressor.WorldRefs.RedirectOne | vttcompressor.py:1134-1141 | one non-first path of the set, as `Repairs.Redirects` says |
| Compressor.WorldRefs.CreateWebpCopy | vttcompressor.py:479-509 | the encoder run changes the disk as the oracle says and returns its exit code |
| Compressor.WorldRefs.ConvertOne | vttcompressor.py:1250-1266 | one path of the conversion leaves the state `Repairs.WebpStep` gives |
| Compressor.WorldRefs.ConvertAllImagesToWebpAndUpdateRefs | vttcompressor.py:1230-1266 | the conversion leaves the state `Repairs.ConvertAllImagesToWebp` gives |
| Compressor.WorldRefs.MoveToTrash | vttcompressor.py:1335-1343 | one queue entry moves as `Repairs.TrashOne` says, guarded by the world-folder pattern, or raises (`with_stem` or `re.match`) and changes nothing |
| Compressor.WorldRefs.MoveAllImgsInTrashQueueToTrash | vttcompressor.py:1315-1343 | the move over the queue leaves the state `Repairs.TrashPass` gives |

## Left out

- Real file-system effects are not modelled: `rglob`, `open`, `json.load`, the export of the files and the `.bak` copies. The disk is a map from path to bytes, and the files are parameters of the constructor. `load_data` and `export_all_json_and_db_files` are not modelled beyond the backup naming.
- `find_all_images_in_world_folder` is not modelled: the listing of the world folder is a parameter of the methods that use it.
- The hashes, encoding sniffing, percent-encoding, HTML parsing and ffmpeg are oracles in `Refs.Config`, not re-verified.
- `ref_id`, `all_img_refs_by_id` and the SHA-256 identifier are left out: references are identified by position.
- The `.webp` copy of the source is an ffmpeg run, also an oracle.
- `Base.Lower`: models `lower()` on ASCII letters only; Unicode case folding is left out.
- `Docs.MentionsImage` is exactly the regex search: `findall` with four literal alternatives finds something iff one of the four substrings occurs. Matching is case-sensitive and anywhere in the text, as in the source.
- Docs.LeafRefs: the `<img>` tags and their `src` attributes come from the `imgSrcs` oracle, which always answers; an `<img>` without `src`, on which `match['src']` raises `KeyError` and aborts the scan, is not modelled.
- Numbers in JSON are integers; floating point is left out.
- `Json.Edit`: the source assigns into a dict or list in place; the model returns the edited tree. The in-place update of the world is in `Compressor.WorldRefs.PushUpdatedContentToWorld`, which reassigns the `docs` field. Aliasing between Python containers is not modelled.
- The iteration order of `trash_queue` is not modelled: a Python set has no specified order, so `MoveAllImgsInTrashQueueToTrash` takes the order as a parameter.
- Naming.FindFilenameThatDoesntExistYet: requires a suffix made of a dot and one extension without dots or slashes. `with_suffix` also accepts a suffix with inner dots; such suffixes are excluded because `Refs.Config` types both encoding oracles to return names without dots (see `Refs.Encoding` below). A path with an empty name, on which `with_suffix` raises, makes `Repairs.ExtTarget` report the exception.
- Naming.FindFilenameThatDoesntExistYet: the source recurses once per taken candidate, so Python raises `RecursionError` after about a thousand taken names in a row; the model has no recursion limit and always returns the first free candidate.
- Refs.Encoding: `mimetypes.guess_type` can give a subtype with dots (`vnd.microsoft.icon` for `.ico`), for which the source builds the suffix `.vnd.microsoft.icon`; the model types the MIME oracle to return names without dots or slashes, so such encodings are not modelled.
- Refs.Resolve: the source wraps each reference string in `Path(...)` (lines 323, 964-965), which drops `./` segments and repeated or trailing `/`; the model compares raw strings, so two spellings of one path are two keys. The same holds for `Docs.LeafRefs`, for the indexes by path in `Classify` (lines 1062, 1225) and for the disk lookup.
- Docs.Push: models the evidently intended write into the record a `.json` reference belongs to, not the `TypeError` the source raises there (first row of "## Findings"); `Docs.Content`, `Compressor.WorldRefs.PushUpdatedContentToWorld`, `Compressor.WorldRefs.ApplyAction`, `Compressor.WorldRefs.ApplyToAll` and every repair pass built on them therefore run the corrected behaviour, and only `Docs.ScanJsonRefsFailAsWritten` states the as-written one.
- Repairs.ExtStep: models the corrected extension fix (each reference gets its own new text, and an unknown encoding is skipped), as do `Repairs.ExtPass`, `Repairs.FixIncorrectFileExtensions`, `Compressor.WorldRefs.FixExtensionOf` and `Compressor.WorldRefs.FixIncorrectFileExtensions`; the as-written fix is `Repairs.ExtStepAsWritten`, with the discrepancies shown by the lemmas in "## Findings".
- Repairs.FolderMatch: a world folder containing any of the characters `.^$*+?{}[]\|()` is a regular expression; its match (including `re.error`) is the `reMatch` oracle of `Refs.Config`, not re-verified. A folder without them is matched as text, which is proved.
- `Repairs.FixOneSetEffect` states where every reference points and what is queued, but not the documents' new contents. `Passes.ApplyAllEffect` gives those contents for references at independent leaves.
- `fix_all_sets_of_duplicated_images` is not modelled: it only calls `fix_one_set_of_duplicated_images` for each entry of `get_duplicated_images`, both of which are.
- `empty_trash`, `restore_bak_files`, `restore_trash_folder`, `input_checker`, `one_liner_compress_world`, `print_ref`, `print_broken_ref_details` and the progress printing are left out. They are file-system or console code, and `restore_trash_folder` reads an attribute that is never set. The restore naming is modelled in `Paths.RestorePath`.

## Findings

| source | as written | input that shows it | evidently intended | confidence | as-written member | corrected member |
|---|---|---|---|---|---|---|
| vttcompressor.py:301-304 | `file_reference` is `files["json"][path]`, which for a `.json` file is the one-element list `[record]`; reading (line 347) and writing (line 535-538) then index that list with a dict key | any `.json` file holding `{"img": "a.png"}`: the reference found at `["img"]` raises `TypeError` on read and on write | use the record inside the list, as `load_data` stored it | high, not executed | Docs.ScanJsonRefsFailAsWritten | Docs.PushThenContent |
| vttcompressor.py:811-828 | `new_content` is computed once, from the first reference of the path, and pushed to every reference of that path | two references to `a.jpg`, one a plain string and one in an HTML chunk: after the fix the HTML leaf is replaced by the plain path | replace the path in each reference's own content | high, not executed | Repairs.ExtAsWrittenCopiesFirst | Repairs.ExtStepEffect |
| vttcompressor.py:810-814 | `not temp_ref.correct_extension` is also true when the verdict is `None`, and the suffix is then `f".{None}"` | an image in the world folder whose encoding neither oracle knows: it is copied to `name.None` and every reference repointed there | skip images with an unknown encoding | medium, not executed | Repairs.ExtAsWrittenNoneSuffix | Repairs.ExtSkipsUnknown |
