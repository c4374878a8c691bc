/**
 The `isIsoDate` test the update handler applies to `publicationDate`: an
 unanchored regular-expression search for the shape
 `dddd-dd-ddTdd:dd:dd?dddZ` (where `?` is any character but a line terminator),
 followed by a parse-and-format round trip through the JavaScript `Date`
 object. The round trip is runtime behaviour outside this model and is taken
 as a parameter.
 */
module IsoDate {
  import opened Types

  /** The regular expression, one character class per position: `d` a digit, `.` any non-line-terminator, otherwise the literal. */
  const Template: string := "dddd-dd-ddTdd:dd:dd.dddZ"

  predicate IsDigit(c: char)
  {
    '0' <= c <= '9'
  }

  predicate IsLineTerminator(c: char)
  {
    c == '\n' || c == '\r' || c == '\U{2028}' || c == '\U{2029}'
  }

  /** Does character `c` match the template position `t`? */
  predicate MatchesClass(t: char, c: char)
  {
    if t == 'd' then IsDigit(c)
    else if t == '.' then !IsLineTerminator(c)
    else c == t
  }

  /** The regular expression matches `s` starting at index `i`. */
  predicate MatchesAt(s: string, i: nat)
    requires i + |Template| <= |s|
  {
    forall k :: 0 <= k < |Template| ==> MatchesClass(Template[k], s[i + k])
  }

  /** `RegExp.prototype.test`: the pattern is not anchored, so a match anywhere in `s` suffices. */
  predicate MatchesPattern(s: string)
  {
    exists i :: 0 <= i <= |s| - |Template| && MatchesAt(s, i)
  }

  /**
   `isIsoDate(str)`. A missing value is converted to the text "undefined",
   which the pattern never matches. `roundTrips(s)` stands for
   `new Date(s).toISOString() === s` on a valid date.
   */
  predicate IsIsoDate(s: Option<string>, roundTrips: string -> bool)
  {
    match s
    case None => MatchesPattern("undefined") && roundTrips("undefined")
    case Some(v) => MatchesPattern(v) && roundTrips(v)
  }

  /** A string that passes `isIsoDate` is at least as long as the pattern, hence non-empty and truthy. */
  lemma IsoDateIsPresent(s: Option<string>, roundTrips: string -> bool)
    requires IsIsoDate(s, roundTrips)
    ensures s.Some? && |s.value| >= |Template|
  {
  }

  /** Every timestamp `Date.prototype.toISOString` prints for a year 0000-9999 matches the pattern. */
  lemma CanonicalFormMatches(s: string)
    requires |s| == |Template|
    requires forall k :: 0 <= k < |Template| ==> (if Template[k] == 'd' then IsDigit(s[k]) else s[k] == Template[k])
    ensures MatchesPattern(s)
  {
    assert MatchesAt(s, 0);
  }
}
