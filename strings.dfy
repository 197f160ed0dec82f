/** Plain, case-sensitive substring containment, as Go's strings.Contains does it. */
module Strings {

  /** `sub` occurs in `s` starting at index `i`. */
  ghost predicate OccursAt(sub: string, s: string, i: int)
  {
    0 <= i && i + |sub| <= |s| && s[i..i + |sub|] == sub
  }

  /** An occurrence in `s` is either at index 0 or one place further in `s[1..]`. */
  lemma OccursShift(sub: string, s: string)
    requires s != []
    ensures (exists i :: OccursAt(sub, s, i)) <==> OccursAt(sub, s, 0) || exists i :: OccursAt(sub, s[1..], i)
  {
    forall i | OccursAt(sub, s, i) && i > 0
      ensures OccursAt(sub, s[1..], i - 1)
    {
      assert s[1..][i - 1..i - 1 + |sub|] == s[i..i + |sub|];
    }
    forall i | OccursAt(sub, s[1..], i)
      ensures OccursAt(sub, s, i + 1)
    {
      assert s[1..][i..i + |sub|] == s[i + 1..i + 1 + |sub|];
    }
  }

  /** True exactly when `sub` is a substring of `s`; the empty string is a substring of everything. */
  function Contains(s: string, sub: string): (r: bool)
    ensures r <==> exists i :: OccursAt(sub, s, i)
    ensures sub == [] ==> r
    decreases |s|
  {
    if |sub| > |s| then false
    else if s[..|sub|] == sub then
      assert OccursAt(sub, s, 0);
      true
    else
      OccursShift(sub, s);
      Contains(s[1..], sub)
  }

  /** Whatever is glued around `sub` still contains it. */
  lemma ContainsInMiddle(a: string, sub: string, b: string)
    ensures Contains(a + sub + b, sub)
  {
    assert (a + sub + b)[|a|..|a| + |sub|] == sub;
    assert OccursAt(sub, a + sub + b, |a|);
  }
}
