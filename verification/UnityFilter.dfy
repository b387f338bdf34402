/** IsStringInBiggerString: the search behind the test name filters. */
module UnityFilter {

  /** C strings: the terminator stands behind the last character. */
  function At(s: string, i: nat): char {
    if i < |s| then s[i] else '\0'
  }

  predicate IsCString(s: string) {
    forall i | 0 <= i < |s| :: s[i] != '\0'
  }

  /** The characters that end a pattern, other than its first one. */
  predicate IsTerminator(c: char) {
    c == '*' || c == ',' || c == '"' || c == '\'' || c == ':' || c == '\0'
  }

  /** The index of the first terminator at index k or later. */
  function PatternEnd(s: string, k: nat): (n: nat)
    requires k <= |s|
    ensures k <= n <= |s| && IsTerminator(At(s, n))
    ensures forall i | k <= i < n :: !IsTerminator(At(s, i))
    decreases |s| - k
  {
    if IsTerminator(At(s, k)) then k else PatternEnd(s, k + 1)
  }

  ghost predicate Contains(long: string, pattern: string) {
    exists i: nat :: OccursAt(long, pattern, i)
  }

  predicate OccursAt(long: string, pattern: string, i: nat) {
    i + |pattern| <= |long| && long[i..i + |pattern|] == pattern
  }

  lemma OccurrenceAgrees(long: string, pattern: string, i: nat, j: nat)
    requires j < |pattern|
    ensures OccursAt(long, pattern, i) ==> i + j < |long| && long[i + j] == pattern[j]
  {
    if OccursAt(long, pattern, i) {
      assert long[i..i + |pattern|][j] == long[i + j];
    }
  }

  /**
   * Nonzero exactly when the pattern starts with a star, or its part before the first terminator at
   * index 1 or later occurs in the long string; and then 2 exactly when that terminator is a colon.
   */
  method IsStringInBiggerString(long: string, short: string) returns (result: int)
    requires IsCString(long) && IsCString(short)
    ensures short == "" ==> result == 0
    ensures short != "" && short[0] == '*' ==> result == 1
    ensures short != "" && short[0] != '*' ==>
              var end := PatternEnd(short, 1);
              result == if !Contains(long, short[..end]) then 0 else if At(short, end) == ':' then 2 else 1
  {
    if At(short, 0) == '*' {
      return 1;
    }
    ghost var end := if short == "" then 0 else PatternEnd(short, 1);
    var lptr := 0;
    while At(long, lptr) != '\0'
      invariant lptr <= |long|
      invariant short != "" ==> forall i: nat | i < lptr :: !OccursAt(long, short[..end], i)
      decreases |long| - lptr
    {
      var lnext := lptr + 1;
      ghost var start := lptr;
      var sptr := 0;
      while At(long, lptr) != '\0' && At(short, sptr) != '\0' && At(long, lptr) == At(short, sptr)
        invariant lptr == start + sptr <= |long| && sptr <= |short|
        invariant short == "" ==> sptr == 0
        invariant short != "" ==> sptr < end && long[start..lptr] == short[..sptr]
        decreases |short| - sptr
      {
        lptr := lptr + 1;
        sptr := sptr + 1;
        assert long[start..lptr] == short[..sptr];
        if IsTerminator(At(short, sptr)) {
          assert sptr == end;
          assert OccursAt(long, short[..end], start);
          if At(short, sptr) == ':' {
            return 2;
          }
          return 1;
        }
      }
      if short != "" {
        OccurrenceAgrees(long, short[..end], start, sptr);
      }
      lptr := lnext;
    }
    if short != "" {
      forall i: nat ensures !OccursAt(long, short[..end], i) {
      }
    }
    return 0;
  }
}
