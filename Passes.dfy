/** The state `WorldRefs` works on, and the one thing every repair pass does
    to a reference: `set_editable_attributes(target)` followed by
    `push_updated_content_to_world(text)`, where the text is the reference's
    content with one path replaced by another. */
module Passes {
  import opened Base
  import opened Paths
  import opened Refs
  import opened Docs
  import opened Grouping

  /** The loaded files (`files`), the references (`all_img_refs`), the files
      on disk and `trash_queue`. */
  datatype State = State(docs: seq<Doc>, refs: seq<Ref>, disk: Disk, trash: set<string>)

  /** Where a pass stopped: `ok` is false when Python raised, and `state` is
      then the state at the moment it raised. */
  datatype Run = Run(state: State, ok: bool)

  /** What a pass does to one reference:
      `Redirect` is the body of `fix_one_set_of_duplicated_images` (replace
      `str(img_path_on_disk)` by the main image), `ToWebp` is
      `update_one_ref_to_webp`, `Rename` replaces a given old path by the new
      one in the reference's own content, and `Overwrite` pushes a text
      computed beforehand. */
  datatype Action =
    | Redirect(target: string)
    | ToWebp
    | Rename(oldPath: string, target: string)
    | Overwrite(target: string, text: string)

  /** `str(p)` for an optional path: Python prints a missing one as "None". */
  function PathText(p: Option<string>): string
  {
    match p
    case Some(x) => x
    case None => "None"
  }

  /** The path the action points the reference to. */
  function Target(ref: Ref, a: Action): Option<string>
  {
    match a
    case Redirect(t) => Some(t)
    case Rename(_, t) => Some(t)
    case Overwrite(t, _) => Some(t)
    case ToWebp => ref.facts.webpPath
  }

  /** The text the action pushes, given the reference's current content. */
  function Text(ref: Ref, a: Action, prev: string): string
  {
    match a
    case Redirect(t) => ReplaceAll(prev, PathText(ref.facts.pathOnDisk), t)
    case Rename(p, t) => ReplaceAll(prev, p, t)
    case Overwrite(_, text) => text
    case ToWebp => ReplaceAll(prev, ref.facts.refPath, PathText(ref.facts.webpPath))
  }

  /** `refs[i].set_editable_attributes(target)`, then
      `refs[i].push_updated_content_to_world(text)`. */
  function Retarget(c: Config, s: State, i: nat, target: string, text: string): (r: Run)
    requires i < |s.refs|
    ensures |r.state.refs| == |s.refs| && r.state.disk == s.disk && r.state.trash == s.trash
  {
    var ref := s.refs[i];
    var refs' := s.refs[i := ref.(facts := Resolve(c, s.disk, ref.facts, target))];
    match Push(s.docs, ref, text)
    case None => Run(s.(refs := refs'), false)
    case Some(docs') => Run(s.(docs := docs', refs := refs'), true)
  }

  /** The action on reference `i`. Reading the content comes first; a
      missing content, or a `.webp` path never computed, raises before
      anything changes. */
  function Apply(c: Config, s: State, i: nat, a: Action): (r: Run)
    requires i < |s.refs|
    ensures |r.state.refs| == |s.refs| && r.state.disk == s.disk && r.state.trash == s.trash
  {
    var ref := s.refs[i];
    if a.Overwrite? then Retarget(c, s, i, a.target, a.text)
    else
      match Content(s.docs, ref)
      case None => Run(s, false)
      case Some(prev) =>
        match Target(ref, a)
        case None => Run(s, false)
        case Some(t) => Retarget(c, s, i, t, Text(ref, a, prev))
  }

  /** What a finished action did: the reference is resolved again at the
      target, keeps its place in its file, and reads back the pushed text;
      no other reference changes, nor the disk or the trash queue. */
  lemma ApplyEffect(c: Config, s: State, i: nat, a: Action)
    requires i < |s.refs| && Apply(c, s, i, a).ok
    ensures var r := Apply(c, s, i, a).state; var ref := s.refs[i];
      && Target(ref, a).Some?
      && (a.Overwrite? || Content(s.docs, ref).Some?)
      && r.refs == s.refs[i := ref.(facts := Resolve(c, s.disk, ref.facts, Target(ref, a).value))]
      && Push(s.docs, ref, Text(ref, a, if a.Overwrite? then "" else Content(s.docs, ref).value)) == Some(r.docs)
      && Content(r.docs, ref) == Some(Text(ref, a, if a.Overwrite? then "" else Content(s.docs, ref).value))
      && SameShape(s.docs, r.docs)
  {
    var ref := s.refs[i];
    var text := Text(ref, a, if a.Overwrite? then "" else Content(s.docs, ref).value);
    PushThenContent(s.docs, ref, text, ref);
  }

  /** A plain reference whose content is exactly the old path ends up
      holding exactly the new path. */
  lemma RenamePlainRef(c: Config, s: State, i: nat, prev: string, target: string)
    requires i < |s.refs| && prev != []
    requires Content(s.docs, s.refs[i]) == Some(prev)
    requires Apply(c, s, i, Rename(prev, target)).ok
    ensures Content(Apply(c, s, i, Rename(prev, target)).state.docs, s.refs[i]) == Some(target)
  {
    ApplyEffect(c, s, i, Rename(prev, target));
    ReplaceWhole(prev, target);
  }

  // ---------------------------------------------------------------------
  // The same action over a list of references
  // ---------------------------------------------------------------------

  /** The action applied to `ps[0]`, ..., `ps[n-1]` in turn, stopping at the
      first exception. */
  function ApplyAll(c: Config, s: State, ps: seq<nat>, n: nat, a: Action): (r: Run)
    requires n <= |ps| && Bounded(ps, |s.refs|)
    ensures |r.state.refs| == |s.refs| && r.state.disk == s.disk && r.state.trash == s.trash
    decreases n
  {
    if n == 0 then Run(s, true)
    else
      var r := ApplyAll(c, s, ps, n - 1, a);
      if !r.ok then r else Apply(c, r.state, ps[n - 1], a)
  }

  /** One more reference of the pass, once the earlier ones went through. */
  lemma ApplyAllNext(c: Config, s: State, ps: seq<nat>, n: nat, a: Action)
    requires n < |ps| && Bounded(ps, |s.refs|) && ApplyAll(c, s, ps, n, a).ok
    ensures ApplyAll(c, s, ps, n + 1, a) == Apply(c, ApplyAll(c, s, ps, n, a).state, ps[n], a)
  {
  }

  /** An exception ends the pass: the later references are not visited. */
  lemma {:induction false} ApplyAllStops(c: Config, s: State, ps: seq<nat>, n: nat, m: nat, a: Action)
    requires n <= m <= |ps| && Bounded(ps, |s.refs|) && !ApplyAll(c, s, ps, n, a).ok
    ensures ApplyAll(c, s, ps, m, a) == ApplyAll(c, s, ps, n, a)
    decreases m
  {
    if m > n {
      ApplyAllStops(c, s, ps, n, m - 1, a);
    }
  }

  /** Two references whose leaves can be written independently: different
      files, different records, or addresses neither of which extends the
      other. */
  predicate Apart(docs: seq<Doc>, r1: Ref, r2: Ref)
  {
    || r1.doc != r2.doc
    || RecordOf(docs, r1) != RecordOf(docs, r2)
    || (!(r1.address <= r2.address) && !(r2.address <= r1.address))
  }

  /** Distinct positions whose references sit at independent leaves. */
  predicate Separate(s: State, ps: seq<nat>)
    requires Bounded(ps, |s.refs|)
  {
    && Increasing(ps)
    && forall t, u | 0 <= t < u < |ps| :: Apart(s.docs, s.refs[ps[t]], s.refs[ps[u]])
  }

  /** What the action did to reference `q` of `s`, read in the state `r`:
      it is resolved again at its own target and holds the text computed
      from its own original content. */
  ghost predicate Done(c: Config, s: State, a: Action, r: State, q: nat)
    requires q < |s.refs| && |r.refs| == |s.refs|
  {
    var ref := s.refs[q];
    && Target(ref, a).Some?
    && (a.Overwrite? || Content(s.docs, ref).Some?)
    && r.refs[q] == ref.(facts := Resolve(c, s.disk, ref.facts, Target(ref, a).value))
    && Content(r.docs, ref) == Some(Text(ref, a, if a.Overwrite? then "" else Content(s.docs, ref).value))
  }

  /** What a finished pass over `ps[..n]` did: each of those references is
      done, every other reference is as it was, and the leaves of the rest
      of `ps` still hold their original content. */
  ghost predicate AppliedAll(c: Config, s: State, ps: seq<nat>, n: nat, a: Action, r: State)
    requires n <= |ps| && Bounded(ps, |s.refs|) && |r.refs| == |s.refs|
  {
    && SameShape(s.docs, r.docs)
    && (forall t | 0 <= t < n :: Done(c, s, a, r, ps[t]))
    && (forall j | 0 <= j < |s.refs| && j !in ps[..n] :: r.refs[j] == s.refs[j])
    && (forall u | n <= u < |ps| :: Content(r.docs, s.refs[ps[u]]) == Content(s.docs, s.refs[ps[u]]))
  }

  /** After a finished pass that overwrites, every leaf of the pass holds
      the one text it was given. */
  lemma OverwroteAll(c: Config, s: State, ps: seq<nat>, t: string, text: string, r: State)
    requires Bounded(ps, |s.refs|) && |r.refs| == |s.refs|
    requires AppliedAll(c, s, ps, |ps|, Overwrite(t, text), r)
    ensures forall k | 0 <= k < |ps| :: Content(r.docs, s.refs[ps[k]]) == Some(text)
  {
    forall k | 0 <= k < |ps| ensures Content(r.docs, s.refs[ps[k]]) == Some(text) {
      assert Done(c, s, Overwrite(t, text), r, ps[k]);
    }
  }

  /** A pass over references at independent leaves does to each exactly what
      the action does to it alone. */
  lemma {:induction false} ApplyAllEffect(c: Config, s: State, ps: seq<nat>, n: nat, a: Action)
    requires n <= |ps| && Bounded(ps, |s.refs|) && Separate(s, ps)
    requires ApplyAll(c, s, ps, n, a).ok
    ensures AppliedAll(c, s, ps, n, a, ApplyAll(c, s, ps, n, a).state)
    decreases n
  {
    if n > 0 {
      ApplyAllEffect(c, s, ps, n - 1, a);
      var m := ApplyAll(c, s, ps, n - 1, a).state;
      var r := ApplyAll(c, s, ps, n, a).state;
      ApplyStep(c, s, ps, n, a, m, r);
    }
  }

  /** The induction step of `ApplyAllEffect`. */
  lemma ApplyStep(c: Config, s: State, ps: seq<nat>, n: nat, a: Action, m: State, r: State)
    requires 0 < n <= |ps| && Bounded(ps, |s.refs|) && Separate(s, ps) && |m.refs| == |s.refs|
    requires AppliedAll(c, s, ps, n - 1, a, m) && m.disk == s.disk
    requires Apply(c, m, ps[n - 1], a).ok && r == Apply(c, m, ps[n - 1], a).state
    ensures AppliedAll(c, s, ps, n, a, r)
  {
    var p := ps[n - 1];
    var ref := s.refs[p];
    IncreasingLast(ps, n);
    assert m.refs[p] == ref;
    ApplyEffect(c, m, p, a);
    var text := Text(ref, a, if a.Overwrite? then "" else Content(m.docs, ref).value);
    assert Done(c, s, a, r, p);
    assert forall j | 0 <= j < |s.refs| && j != p :: r.refs[j] == m.refs[j];
    StepKeepsDone(c, s, a, ps, n, m, r, text);
    StepKeepsPending(s, ps, n, m, r, text);
    FrameStep(s.refs, m.refs, r.refs, ps, n);
  }

  /** The references done before the step stay done. */
  lemma StepKeepsDone(c: Config, s: State, a: Action, ps: seq<nat>, n: nat, m: State, r: State, text: string)
    requires 0 < n <= |ps| && Bounded(ps, |s.refs|) && Separate(s, ps)
    requires |m.refs| == |s.refs| && |r.refs| == |s.refs| && SameShape(s.docs, m.docs)
    requires Push(m.docs, s.refs[ps[n - 1]], text) == Some(r.docs)
    requires forall t | 0 <= t < n - 1 :: ps[t] < ps[n - 1]
    requires forall j | 0 <= j < |s.refs| && j != ps[n - 1] :: r.refs[j] == m.refs[j]
    requires forall t | 0 <= t < n - 1 :: Done(c, s, a, m, ps[t])
    ensures forall t | 0 <= t < n - 1 :: Done(c, s, a, r, ps[t])
  {
    var ref := s.refs[ps[n - 1]];
    forall t | 0 <= t < n - 1 ensures Done(c, s, a, r, ps[t]) {
      assert Apart(s.docs, s.refs[ps[t]], ref);
      PushLeavesApart(s.docs, m.docs, ref, text, s.refs[ps[t]]);
      DoneKept(c, s, a, m, r, ps[t]);
    }
  }

  /** The references still to come keep their original content. */
  lemma StepKeepsPending(s: State, ps: seq<nat>, n: nat, m: State, r: State, text: string)
    requires 0 < n <= |ps| && Bounded(ps, |s.refs|) && Separate(s, ps) && SameShape(s.docs, m.docs)
    requires Push(m.docs, s.refs[ps[n - 1]], text) == Some(r.docs)
    requires forall u | n - 1 <= u < |ps| :: Content(m.docs, s.refs[ps[u]]) == Content(s.docs, s.refs[ps[u]])
    ensures forall u | n <= u < |ps| :: Content(r.docs, s.refs[ps[u]]) == Content(s.docs, s.refs[ps[u]])
  {
    var ref := s.refs[ps[n - 1]];
    forall u | n <= u < |ps|
      ensures Content(r.docs, s.refs[ps[u]]) == Content(m.docs, s.refs[ps[u]])
    {
      assert Apart(s.docs, ref, s.refs[ps[u]]);
      PushLeavesApart(s.docs, m.docs, ref, text, s.refs[ps[u]]);
    }
  }

  /** A push at one leaf leaves the content of every reference at an
      independent leaf as it was. */
  lemma PushLeavesApart(sdocs: seq<Doc>, docs: seq<Doc>, ref: Ref, text: string, other: Ref)
    requires SameShape(sdocs, docs) && Push(docs, ref, text).Some?
    requires Apart(sdocs, other, ref) || Apart(sdocs, ref, other)
    ensures Content(Push(docs, ref, text).value, other) == Content(docs, other)
  {
    SameShapeRecordOf(sdocs, docs, other);
    SameShapeRecordOf(sdocs, docs, ref);
    PushFrame(docs, ref, text, other);
  }

  /** A reference already done stays done while neither it nor its leaf
      changes. */
  lemma DoneKept(c: Config, s: State, a: Action, m: State, r: State, q: nat)
    requires q < |s.refs| && |m.refs| == |s.refs| && |r.refs| == |s.refs|
    requires Done(c, s, a, m, q)
    requires r.refs[q] == m.refs[q] && Content(r.docs, s.refs[q]) == Content(m.docs, s.refs[q])
    ensures Done(c, s, a, r, q)
  {
  }

  /** Whatever happens, an action touches only its own reference. */
  lemma ApplyFrame(c: Config, s: State, i: nat, a: Action)
    requires i < |s.refs|
    ensures forall j | 0 <= j < |s.refs| && j != i :: Apply(c, s, i, a).state.refs[j] == s.refs[j]
  {
  }

  /** Whatever happens, a pass touches only the references it walks. */
  lemma {:induction false} ApplyAllFrame(c: Config, s: State, ps: seq<nat>, n: nat, a: Action)
    requires n <= |ps| && Bounded(ps, |s.refs|)
    ensures forall j | 0 <= j < |s.refs| && j !in ps[..n] :: ApplyAll(c, s, ps, n, a).state.refs[j] == s.refs[j]
    decreases n
  {
    if n > 0 {
      ApplyAllFrame(c, s, ps, n - 1, a);
      var m := ApplyAll(c, s, ps, n - 1, a);
      if m.ok {
        ApplyAllNext(c, s, ps, n - 1, a);
        ApplyFrame(c, m.state, ps[n - 1], a);
      }
      FrameStep(s.refs, m.state.refs, ApplyAll(c, s, ps, n, a).state.refs, ps, n);
    }
  }

  lemma FrameStep(orig: seq<Ref>, before: seq<Ref>, after: seq<Ref>, ps: seq<nat>, n: nat)
    requires 0 < n <= |ps| && |before| == |orig| && |after| == |orig|
    requires forall j | 0 <= j < |orig| && j !in ps[..n - 1] :: before[j] == orig[j]
    requires forall j | 0 <= j < |orig| && j != ps[n - 1] :: after[j] == before[j]
    ensures forall j | 0 <= j < |orig| && j !in ps[..n] :: after[j] == orig[j]
  {
    assert ps[..n] == ps[..n - 1] + [ps[n - 1]];
  }

  /** A pass of `Rename(p, t)` over references at independent leaves: each
      is resolved again at `t` and holds its own content with `p` replaced by
      `t`; the others are as they were. */
  lemma RenameAllEffect(c: Config, s: State, ps: seq<nat>, p: string, t: string)
    requires Bounded(ps, |s.refs|) && Separate(s, ps) && ApplyAll(c, s, ps, |ps|, Rename(p, t)).ok
    ensures var r := ApplyAll(c, s, ps, |ps|, Rename(p, t)).state;
      && (forall k | 0 <= k < |ps| ::
            var ref := s.refs[ps[k]];
            && r.refs[ps[k]] == ref.(facts := Resolve(c, s.disk, ref.facts, t))
            && Content(s.docs, ref).Some?
            && Content(r.docs, ref) == Some(ReplaceAll(Content(s.docs, ref).value, p, t)))
      && (forall j | 0 <= j < |s.refs| && j !in ps :: r.refs[j] == s.refs[j])
  {
    ApplyAllEffect(c, s, ps, |ps|, Rename(p, t));
    assert ps[..|ps|] == ps;
  }

  /** A pass that points every reference it walks to one fixed path leaves
      each of them at that path, found on disk where that path is found,
      whether or not the references sit at independent leaves. */
  lemma {:induction false} ApplyAllRetargets(c: Config, s: State, ps: seq<nat>, n: nat, a: Action)
    requires n <= |ps| && Bounded(ps, |s.refs|) && !a.ToWebp?
    requires ApplyAll(c, s, ps, n, a).ok
    ensures Retargeted(c, s.disk, ps, n, a.target, ApplyAll(c, s, ps, n, a).state.refs)
    decreases n
  {
    if n > 0 {
      ApplyAllRetargets(c, s, ps, n - 1, a);
      var m := ApplyAll(c, s, ps, n - 1, a).state;
      ApplyRetargetsStep(c, s.disk, ps, n, a, m, ApplyAll(c, s, ps, n, a).state);
    }
  }

  /** The references `ps[..n]` all point at `target` and are found where
      `target` is found on `disk`. */
  ghost predicate Retargeted(c: Config, disk: Disk, ps: seq<nat>, n: nat, target: string, refs: seq<Ref>)
    requires n <= |ps| && Bounded(ps, |refs|)
  {
    forall t | 0 <= t < n ::
      refs[ps[t]].facts.refPath == target && refs[ps[t]].facts.pathOnDisk == Locate(c, disk, target)
  }

  /** The induction step of `ApplyAllRetargets`, on the states before and
      after the action on `ps[n - 1]`. */
  lemma ApplyRetargetsStep(c: Config, disk: Disk, ps: seq<nat>, n: nat, a: Action, m: State, r: State)
    requires 0 < n <= |ps| && Bounded(ps, |m.refs|) && !a.ToWebp? && m.disk == disk
    requires Retargeted(c, disk, ps, n - 1, a.target, m.refs)
    requires Apply(c, m, ps[n - 1], a).ok && r == Apply(c, m, ps[n - 1], a).state
    ensures |r.refs| == |m.refs| && Retargeted(c, disk, ps, n, a.target, r.refs)
  {
    ApplyFrame(c, m, ps[n - 1], a);
    ApplyRetargets(c, m, ps[n - 1], a);
    RetargetStep(c, disk, ps, n, a.target, m.refs, r.refs);
  }

  lemma RetargetStep(c: Config, disk: Disk, ps: seq<nat>, n: nat, target: string, before: seq<Ref>, after: seq<Ref>)
    requires 0 < n <= |ps| && Bounded(ps, |before|) && |after| == |before|
    requires forall t | 0 <= t < n - 1 ::
      before[ps[t]].facts.refPath == target && before[ps[t]].facts.pathOnDisk == Locate(c, disk, target)
    requires forall j | 0 <= j < |before| && j != ps[n - 1] :: after[j] == before[j]
    requires after[ps[n - 1]].facts.refPath == target && after[ps[n - 1]].facts.pathOnDisk == Locate(c, disk, target)
    ensures forall t | 0 <= t < n ::
      after[ps[t]].facts.refPath == target && after[ps[t]].facts.pathOnDisk == Locate(c, disk, target)
  {
    forall t | 0 <= t < n
      ensures after[ps[t]].facts.refPath == target && after[ps[t]].facts.pathOnDisk == Locate(c, disk, target)
    {
      if ps[t] != ps[n - 1] {
        assert after[ps[t]] == before[ps[t]];
      }
    }
  }

  /** One action with a fixed target leaves its reference at that target. */
  lemma ApplyRetargets(c: Config, s: State, i: nat, a: Action)
    requires i < |s.refs| && !a.ToWebp? && Apply(c, s, i, a).ok
    ensures Apply(c, s, i, a).state.refs[i].facts.refPath == a.target
    ensures Apply(c, s, i, a).state.refs[i].facts.pathOnDisk == Locate(c, s.disk, a.target)
  {
  }

  // ---------------------------------------------------------------------
  // try_to_fix_one_broken_ref
  // ---------------------------------------------------------------------

  /** The path a legacy `modules` reference is tried at: every occurrence of
      `modules` becomes `worlds`. */
  function LegacyTarget(p: string): string
  {
    ReplaceAll(p, "modules", "worlds")
  }

  /** `try_to_fix_one_broken_ref(refs[i])`: the run, and whether it reports
      the reference fixed. */
  function TryToFixOneBrokenRef(c: Config, s: State, i: nat): (Run, bool)
    requires i < |s.refs|
  {
    var p := s.refs[i].facts.refPath;
    if StartsWith(p, "modules") && LegacyTarget(p) in s.disk then
      var r := Apply(c, s, i, Rename(p, LegacyTarget(p)));
      (r, r.ok)
    else (Run(s, true), false)
  }

  /** The legacy fix reports success exactly when the path starts with
      `modules` and the `worlds` variant is a file; otherwise nothing
      changes. On success the reference now resolves to that file, and its
      content has the old path replaced by the new one. */
  lemma LegacyFix(c: Config, s: State, i: nat)
    requires i < |s.refs|
    ensures var (r, fixed) := TryToFixOneBrokenRef(c, s, i);
      var p := s.refs[i].facts.refPath;
      && (fixed <==> StartsWith(p, "modules") && LegacyTarget(p) in s.disk && r.ok)
      && (!(StartsWith(p, "modules") && LegacyTarget(p) in s.disk) ==> r == Run(s, true))
      && (fixed ==>
            && r.state.refs[i].facts.pathOnDisk == Some(LegacyTarget(p))
            && r.state.refs[i].facts.refPath == LegacyTarget(p)
            && Content(r.state.docs, s.refs[i]) == Some(ReplaceAll(Content(s.docs, s.refs[i]).value, p, LegacyTarget(p)))
            && forall j | 0 <= j < |s.refs| && j != i :: r.state.refs[j] == s.refs[j])
  {
    var p := s.refs[i].facts.refPath;
    if StartsWith(p, "modules") && LegacyTarget(p) in s.disk {
      var a := Rename(p, LegacyTarget(p));
      if Apply(c, s, i, a).ok {
        ApplyEffect(c, s, i, a);
      }
    }
  }
}
