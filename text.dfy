/** Substring search, as `strings.Contains` does it. Strings are sequences of
    Unicode code points here; for valid UTF-8 text this gives the same answer
    as Go's byte-wise search. */
module Text {

  /** `sub` occurs in `s` starting at position `i`. */
  ghost predicate OccursAt(s: string, sub: string, i: int) {
    0 <= i && i + |sub| <= |s| && s[i..i + |sub|] == sub
  }

  /** `strings.Contains(s, sub)`: tries each starting position in turn. */
  function Contains(s: string, sub: string): bool
    decreases |s|
  {
    if |sub| > |s| then false
    else if s[..|sub|] == sub then true
    else Contains(s[1..], sub)
  }

  /** `Contains` answers yes exactly when the pattern occurs somewhere. */
  lemma {:induction false} ContainsSpec(s: string, sub: string)
    ensures Contains(s, sub) <==> exists i :: OccursAt(s, sub, i)
    decreases |s|
  {
    if |sub| > |s| {
      assert forall i :: !OccursAt(s, sub, i);
    } else if s[..|sub|] == sub {
      assert OccursAt(s, sub, 0);
    } else {
      ContainsSpec(s[1..], sub);
      if Contains(s[1..], sub) {
        var i :| OccursAt(s[1..], sub, i);
        assert s[1..][i..i + |sub|] == s[i + 1..i + 1 + |sub|];
        assert OccursAt(s, sub, i + 1);
      } else {
        forall i | OccursAt(s, sub, i) ensures false {
          assert i != 0;
          assert s[1..][i - 1..i - 1 + |sub|] == s[i..i + |sub|];
          assert OccursAt(s[1..], sub, i - 1);
        }
      }
    }
  }
}
