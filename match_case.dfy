/** `matchCase` (helpers/match-case/match-case.helper.ts): give a string the case of a reference. */
module CaseMatching {
  import opened Text

  /** Upper-casing leaves `c` as it is: an upper-case letter, a digit, punctuation. */
  predicate UpperStable(c: char)
  {
    UpperChar(c) == c
  }

  /**
   * `s` with the case of `reference`: when the first character of `reference` is unchanged
   * by upper-casing, `s` gets an upper-case first character and keeps the rest; otherwise
   * `s` is lower-cased. An empty `reference` or an empty `s` leaves `s` as it is.
   * Only the case of characters changes, never the letters themselves.
   */
  function MatchCase(reference: string, s: string): (r: string)
    ensures |r| == |s|
    ensures Lower(r) == Lower(s)
    ensures reference == [] ==> r == s
    ensures reference != [] && s != [] && UpperStable(reference[0]) ==>
              UpperStable(r[0]) && r[1..] == s[1..]
    ensures reference != [] && !UpperStable(reference[0]) ==> r == Lower(r)
  {
    if |reference| == 0 || |s| == 0 then s
    else if UpperStable(reference[0]) then [UpperChar(s[0])] + s[1..]
    else Lower(s)
  }

  /** Matching the case of the same reference twice changes nothing the second time. */
  lemma MatchCaseIdempotent(reference: string, s: string)
    ensures MatchCase(reference, MatchCase(reference, s)) == MatchCase(reference, s)
  {
  }

  /** Only the first character of the reference decides the result. */
  lemma MatchCaseFirstCharOnly(reference: string, reference': string, s: string)
    requires reference != [] && reference' != [] && reference[0] == reference'[0]
    ensures MatchCase(reference, s) == MatchCase(reference', s)
  {
  }

  /** The cases of match-case.helper.spec.ts. */
  lemma MatchCaseExamples()
    ensures MatchCase("Naddo", "yes") == "Yes"
    ensures MatchCase("naddo", "YES") == "yes"
    ensures MatchCase("", "yes") == "yes"
    ensures MatchCase("naddo", "") == ""
  {
    assert Lower("YES") == "yes";
  }
}
