/** Case-insensitive substring matching, as the buddy list's name filter uses
    it. Case folding is a per-character function supplied by the caller; the
    Unicode tables behind it are not part of this model. */
module Text {

  /** Every character of `s` folded with `fold`. */
  function FoldCase(fold: char -> char, s: string): (r: string)
    ensures |r| == |s|
    ensures forall i :: 0 <= i < |s| ==> r[i] == fold(s[i])
  {
    seq(|s|, i requires 0 <= i < |s| => fold(s[i]))
  }

  /** Folding twice is folding once when `fold` is idempotent. */
  lemma FoldTwice(fold: char -> char, s: string)
    requires forall c :: fold(fold(c)) == fold(c)
    ensures FoldCase(fold, FoldCase(fold, s)) == FoldCase(fold, s)
  {
  }

  /** `t` occurs in `s` starting at index `i`. */
  ghost predicate OccursAt(s: string, t: string, i: int) {
    0 <= i && i + |t| <= |s| && s[i..i + |t|] == t
  }

  /** An occurrence of `t` in a non-empty `s` that is not at index 0 is an
      occurrence in `s[1..]` one index earlier, and conversely. */
  lemma OccursInTail(s: string, t: string)
    requires s != [] && !(t <= s)
    ensures (exists i :: OccursAt(s, t, i)) <==> exists i :: OccursAt(s[1..], t, i)
  {
    forall i | OccursAt(s, t, i)
      ensures OccursAt(s[1..], t, i - 1)
    {
      if i > 0 {
        assert s[1..][i - 1..i - 1 + |t|] == s[i..i + |t|];
      }
    }
    forall i | OccursAt(s[1..], t, i)
      ensures OccursAt(s, t, i + 1)
    {
      assert s[i + 1..i + 1 + |t|] == s[1..][i..i + |t|];
    }
  }

  /** Substring search: `t` is a prefix of `s` or of one of its suffixes.
      It finds `t` exactly when `t` occurs somewhere in `s`. */
  function Contains(s: string, t: string): (found: bool)
    ensures found <==> exists i :: OccursAt(s, t, i)
    decreases |s|
  {
    if t <= s then
      assert OccursAt(s, t, 0);
      true
    else if s == [] then false
    else
      OccursInTail(s, t);
      Contains(s[1..], t)
  }
}
