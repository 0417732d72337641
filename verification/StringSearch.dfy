/** std::string::find and substr, with size_t arithmetic and npos. */
module StringSearch {

  const TWO_64 := 0x1_0000_0000_0000_0000
  const NPOS := TWO_64 - 1

  /** std::string::max_size(). */
  const MAX_SIZE := 0x7fff_ffff_ffff_ffff

  ghost predicate Occurs(s: string, pat: string, i: nat) {
    i + |pat| <= |s| && s[i..i + |pat|] == pat
  }

  ghost predicate IsFind(s: string, pat: string, from: nat, pos: nat) {
    || (from <= pos < NPOS && Occurs(s, pat, pos) && forall i | from <= i < pos :: !Occurs(s, pat, i))
    || (pos == NPOS && forall i | from <= i :: !Occurs(s, pat, i))
  }

  lemma {:induction false} FindExists(s: string, pat: string, from: nat)
    requires |s| <= MAX_SIZE
    ensures exists pos :: IsFind(s, pat, from, pos)
    decreases |s| + 1 - from
  {
    if from > |s| {
      assert IsFind(s, pat, from, NPOS);
    } else if Occurs(s, pat, from) {
      assert IsFind(s, pat, from, from);
    } else {
      FindExists(s, pat, from + 1);
      var pos :| IsFind(s, pat, from + 1, pos);
      assert IsFind(s, pat, from, pos);
    }
  }

  /** The first position of `pat` from `from` on, or npos. */
  ghost function Find(s: string, pat: string, from: nat): (pos: nat)
    requires |s| <= MAX_SIZE
    ensures IsFind(s, pat, from, pos)
  {
    FindExists(s, pat, from);
    var pos :| IsFind(s, pat, from, pos);
    pos
  }

  lemma FindIs(s: string, pat: string, from: nat, pos: nat)
    requires |s| <= MAX_SIZE && IsFind(s, pat, from, pos)
    ensures Find(s, pat, from) == pos
  {
  }

  lemma OccursAt(s: string, pat: string, i: nat, j: nat)
    requires Occurs(s, pat, i) && j < |pat|
    ensures s[i + j] == pat[j]
  {
    assert s[i..i + |pat|][j] == s[i + j];
  }

  lemma MismatchAt(s: string, pat: string, i: nat, k: nat)
    requires k < |pat| && i + k < |s| && s[i + k] != pat[k]
    ensures !Occurs(s, pat, i)
  {
    if Occurs(s, pat, i) {
      OccursAt(s, pat, i, k);
    }
  }

  lemma SliceOfSlice(s: string, a: nat, b: nat, c: nat, d: nat)
    requires a <= c <= d <= b <= |s|
    ensures s[a..b][c - a..d - a] == s[c..d]
  {
    var t := s[a..b];
    assert forall k | 0 <= k < d - c :: t[c - a..d - a][k] == t[c - a + k] == s[c..d][k];
  }

  /**
    A pattern is found where it stands when its `m`-th character does not occur earlier on: the search
    only has to pass positions that fail on that one character.
   */
  lemma FoundByMarker(s: string, pat: string, from: nat, m: nat, pos: nat)
    requires |s| <= MAX_SIZE && from <= pos && Occurs(s, pat, pos) && m < |pat|
    requires forall i | from + m <= i < pos + m :: s[i] != pat[m]
    ensures Find(s, pat, from) == pos
  {
    forall i | from <= i < pos
      ensures !Occurs(s, pat, i)
    {
      if Occurs(s, pat, i) {
        OccursAt(s, pat, i, m);
      }
    }
    FindIs(s, pat, from, pos);
  }

  method FindFirst(s: string, pat: string, from: nat) returns (pos: nat)
    requires |s| <= MAX_SIZE
    ensures pos == Find(s, pat, from)
  {
    pos := from;
    while pos <= |s| && pos + |pat| <= |s|
      invariant from <= pos && (from <= |s| ==> pos <= |s| + 1)
      invariant forall i | from <= i < pos :: !Occurs(s, pat, i)
    {
      if s[pos..pos + |pat|] == pat {
        FindIs(s, pat, from, pos);
        return;
      }
      pos := pos + 1;
    }
    assert forall i | pos <= i :: !Occurs(s, pat, i);
    pos := NPOS;
    FindIs(s, pat, from, pos);
  }
}
