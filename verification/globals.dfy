/** `Utils` of lib/globals.ts: changing the case of a string's first character. */
module Globals {
  import opened Text

  /** `Utils.ensureStartingUCase`. The source indexes `s[0]` and calls a method on it,
      so the empty string is outside its domain. */
  function EnsureStartingUCase(s: string): (r: string)
    requires |s| > 0
    ensures |r| == |s| && r[1..] == s[1..]
    ensures !IsAsciiLower(r[0])
    ensures IsAsciiLower(s[0]) ==> LowerChar(r[0]) == s[0]
    ensures !IsAsciiLower(s[0]) ==> r == s
  {
    [UpperChar(s[0])] + s[1..]
  }

  /** `Utils.ensureStartingLCase`, the lower-case mirror. */
  function EnsureStartingLCase(s: string): (r: string)
    requires |s| > 0
    ensures |r| == |s| && r[1..] == s[1..]
    ensures !IsAsciiUpper(r[0])
    ensures IsAsciiUpper(s[0]) ==> UpperChar(r[0]) == s[0]
    ensures !IsAsciiUpper(s[0]) ==> r == s
  {
    [LowerChar(s[0])] + s[1..]
  }

  lemma UCaseIdempotent(s: string)
    requires |s| > 0
    ensures EnsureStartingUCase(EnsureStartingUCase(s)) == EnsureStartingUCase(s)
  {
  }

  lemma LCaseIdempotent(s: string)
    requires |s| > 0
    ensures EnsureStartingLCase(EnsureStartingLCase(s)) == EnsureStartingLCase(s)
  {
  }

  /** The two functions undo each other on a string whose first character
      already has the case the outer one restores. */
  lemma CaseRoundTrip(s: string)
    requires |s| > 0
    ensures IsAsciiUpper(s[0]) ==> EnsureStartingUCase(EnsureStartingLCase(s)) == s
    ensures IsAsciiLower(s[0]) ==> EnsureStartingLCase(EnsureStartingUCase(s)) == s
  {
  }

  /** The examples the utility's tests pin down. */
  lemma CaseExamples()
    ensures EnsureStartingUCase("something") == "Something"
    ensures EnsureStartingUCase("Something") == "Something"
    ensures EnsureStartingLCase("Something") == "something"
    ensures EnsureStartingLCase("something") == "something"
  {
  }
}
