/** Small value helpers shared by the whole model: an Option type and the few
    string operations of Python's `str` that the compressor relies on. */
module Base {

  datatype Option<+T> = None | Some(value: T)

  /** No element occurs twice. */
  predicate Distinct<T(==)>(s: seq<T>)
  {
    forall i, j | 0 <= i < j < |s| :: s[i] != s[j]
  }

  /** Concatenation regroups freely; stated once here so that callers with
      large element types need not prove it by extensionality. */
  lemma AppendAssoc<T>(a: seq<T>, b: seq<T>, c: seq<T>)
    ensures a + b + c == a + (b + c)
  {
  }

  /** A concatenation cut where its parts meet gives the parts back. */
  lemma SplitAt<T>(a: seq<T>, b: seq<T>)
    ensures (a + b)[..|a|] == a && (a + b)[|a|..] == b
  {
  }

  /** Python's `s.startswith(prefix)`. */
  predicate StartsWith(s: string, prefix: string)
  {
    |prefix| <= |s| && s[..|prefix|] == prefix
  }

  /** `needle` occurs in `s` starting at position `i`. */
  predicate OccursAt(s: string, needle: string, i: int)
  {
    0 <= i && i + |needle| <= |s| && s[i..i + |needle|] == needle
  }

  /** A string starts with each of its prefixes, and keeps doing so when
      extended. */
  lemma PrefixExtends(s: string, a: string, b: string)
    requires OccursAt(s, a, 0)
    ensures OccursAt(s + b, a, 0)
  {
    assert (s + b)[0..|a|] == s[0..|a|];
  }

  /** Python's `needle in s` for strings. */
  predicate Contains(s: string, needle: string)
  {
    exists i | 0 <= i <= |s| :: OccursAt(s, needle, i)
  }

  /** A pattern without any character Python's `re` treats specially: it
      matches exactly its own text. */
  predicate RegexLiteral(p: string)
  {
    forall i | 0 <= i < |p| :: p[i] !in ".^$*+?{}[]\\|()"
  }

  /** `re.match('.*' + l + '.*', s)` for a literal `l`: the leading `.*`
      skips characters other than a newline, and the trailing one may match
      nothing. */
  function DotStarMatch(l: string, s: string): bool
    decreases |s|
  {
    if StartsWith(s, l) then true
    else if s == [] || s[0] == '\n' then false
    else DotStarMatch(l, s[1..])
  }

  /** `l` occurs at position `i` of `s`, and no newline comes before it. */
  predicate MatchesAt(s: string, l: string, i: int)
  {
    OccursAt(s, l, i) && forall j | 0 <= j < i :: s[j] != '\n'
  }

  /** The match succeeds exactly when `l` occurs somewhere in `s` on its
      first line. */
  lemma {:induction false} DotStarMatchSpec(l: string, s: string)
    ensures DotStarMatch(l, s) <==> exists i :: MatchesAt(s, l, i)
    decreases |s|
  {
    if StartsWith(s, l) {
      assert s[0..|l|] == s[..|l|];
      assert MatchesAt(s, l, 0);
    } else if s == [] || s[0] == '\n' {
      forall i | 0 <= i <= |s| ensures !MatchesAt(s, l, i) {
        if i == 0 {
          assert |l| > |s| || s[0..|l|] == s[..|l|];
        }
      }
    } else {
      DotStarMatchSpec(l, s[1..]);
      if DotStarMatch(l, s[1..]) {
        var i :| MatchesAt(s[1..], l, i);
        assert s[i + 1..i + 1 + |l|] == s[1..][i..i + |l|];
        assert MatchesAt(s, l, i + 1);
      } else {
        forall i | 0 <= i <= |s| ensures !MatchesAt(s, l, i) {
          if i == 0 {
            assert |l| > |s| || s[0..|l|] == s[..|l|];
          } else if MatchesAt(s, l, i) {
            assert s[i..i + |l|] == s[1..][i - 1..i - 1 + |l|];
            assert MatchesAt(s[1..], l, i - 1);
          }
        }
      }
    }
  }

  /** A match is always a substring occurrence; on a string without
      newlines the two tests agree. */
  lemma DotStarMatchContains(l: string, s: string)
    ensures DotStarMatch(l, s) ==> Contains(s, l)
    ensures (forall j | 0 <= j < |s| :: s[j] != '\n') ==> (DotStarMatch(l, s) <==> Contains(s, l))
  {
    DotStarMatchSpec(l, s);
    if Contains(s, l) && forall j | 0 <= j < |s| :: s[j] != '\n' {
      var i :| 0 <= i <= |s| && OccursAt(s, l, i);
      assert MatchesAt(s, l, i);
    }
  }

  /** Python's `str.lower()`, restricted to ASCII letters. */
  function LowerChar(c: char): char
  {
    if 'A' <= c <= 'Z' then (c as int + 32) as char else c
  }

  function Lower(s: string): (r: string)
    ensures |r| == |s|
    ensures forall i :: 0 <= i < |s| ==> r[i] == LowerChar(s[i])
  {
    if s == [] then [] else [LowerChar(s[0])] + Lower(s[1..])
  }

  /** Python's `s.replace(pat, rep)`: every non-overlapping occurrence of
      `pat`, scanning left to right, is replaced; an empty `pat` inserts
      `rep` before every character and at the end. */
  function ReplaceAll(s: string, pat: string, rep: string): string
    decreases |s|
  {
    if pat == [] then
      if s == [] then rep else rep + [s[0]] + ReplaceAll(s[1..], pat, rep)
    else if |s| < |pat| then s
    else if s[..|pat|] == pat then rep + ReplaceAll(s[|pat|..], pat, rep)
    else [s[0]] + ReplaceAll(s[1..], pat, rep)
  }

  /** A string with no occurrence of `pat` comes back unchanged. */
  lemma {:induction false} ReplaceAbsent(s: string, pat: string, rep: string)
    requires pat != []
    requires !Contains(s, pat)
    ensures ReplaceAll(s, pat, rep) == s
    decreases |s|
  {
    if |s| >= |pat| {
      assert s[0..|pat|] == s[..|pat|];
      assert !OccursAt(s, pat, 0);
      if Contains(s[1..], pat) {
        var i :| 0 <= i <= |s[1..]| && OccursAt(s[1..], pat, i);
        assert s[i + 1..i + 1 + |pat|] == s[1..][i..i + |pat|];
        assert OccursAt(s, pat, i + 1);
        assert false;
      }
      ReplaceAbsent(s[1..], pat, rep);
    }
  }

  /** A content string that is exactly the path being replaced becomes the
      rep path: this is what happens to a plain (non-HTML) reference. */
  lemma ReplaceWhole(pat: string, rep: string)
    requires pat != []
    ensures ReplaceAll(pat, pat, rep) == rep
  {
    assert pat[..|pat|] == pat;
    assert pat[|pat|..] == [];
  }
}
