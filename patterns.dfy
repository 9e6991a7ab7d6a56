/**
 * The two regular expressions the intake handler tests its input against:
 * `^[^\s@]+@[^\s@]+\.[^\s@]+$` for the e-mail address, on the raw string, and
 * `^1[3-9]\d{9}$` for the mobile number, after whitespace and hyphens are
 * removed.
 */
module Patterns {
  import opened Text

  /** The class `[^\s@]`. */
  predicate IsEmailChar(c: char) {
    !IsSpace(c) && c != '@'
  }

  /** Every character is in `[^\s@]` (the `+` is enforced by the split indices). */
  predicate EmailRun(s: string) {
    forall i :: 0 <= i < |s| ==> IsEmailChar(s[i])
  }

  /**
   * The e-mail pattern, read off the regular expression: the string splits at
   * an '@' (index a) and a later '.' (index d) into three non-empty runs of
   * `[^\s@]`. Because '.' is itself in `[^\s@]`, the regular expression may
   * pick any such '.' after the '@'.
   */
  predicate MatchesEmail(s: string) {
    exists a, d | 0 < a < d < |s| - 1 ::
      && a + 1 < d
      && s[a] == '@' && s[d] == '.'
      && EmailRun(s[..a]) && EmailRun(s[a + 1..d]) && EmailRun(s[d + 1..])
  }

  /** The only '@' of s is at index a. */
  predicate SoleAt(s: string, a: int) {
    0 <= a < |s| && s[a] == '@' && forall i :: 0 <= i < |s| && i != a ==> s[i] != '@'
  }

  /** Some '.' of t is neither its first nor its last character. */
  predicate InnerDot(t: string) {
    exists j | 0 < j < |t| - 1 :: t[j] == '.'
  }

  /**
   * The shape the e-mail pattern accepts, in words: no whitespace, exactly
   * one '@', a non-empty part before it, and a '.' in the part after it that
   * is neither that part's first nor its last character.
   */
  predicate EmailShape(s: string) {
    NoSpace(s) && exists a | 0 < a < |s| :: SoleAt(s, a) && InnerDot(s[a + 1..])
  }

  lemma PatternGivesShape(s: string, a: int, d: int)
    requires 0 < a < d < |s| - 1 && a + 1 < d && s[a] == '@' && s[d] == '.'
    requires EmailRun(s[..a]) && EmailRun(s[a + 1..d]) && EmailRun(s[d + 1..])
    ensures EmailShape(s)
  {
    forall i | 0 <= i < |s| && i != a && i != d
      ensures IsEmailChar(s[i])
    {
      if i < a {
        assert s[..a][i] == s[i];
      } else if i < d {
        assert s[a + 1..d][i - a - 1] == s[i];
      } else {
        assert s[d + 1..][i - d - 1] == s[i];
      }
    }
    assert NoSpace(s);
    assert s[a + 1..][d - a - 1] == '.';
    assert SoleAt(s, a) && InnerDot(s[a + 1..]);
  }

  lemma ShapeGivesPattern(s: string, a: int, j: int)
    requires NoSpace(s) && 0 < a < |s| && SoleAt(s, a)
    requires 0 < j < |s[a + 1..]| - 1 && s[a + 1..][j] == '.'
    ensures MatchesEmail(s)
  {
    var d := a + 1 + j;
    assert s[d] == '.';
    assert EmailRun(s[..a]);
    assert EmailRun(s[a + 1..d]);
    assert EmailRun(s[d + 1..]);
  }

  /** The regular expression accepts exactly the strings of that shape. */
  lemma EmailPatternShape(s: string)
    ensures MatchesEmail(s) <==> EmailShape(s)
  {
    if MatchesEmail(s) {
      var a, d :| 0 < a < d < |s| - 1 && a + 1 < d && s[a] == '@' && s[d] == '.'
        && EmailRun(s[..a]) && EmailRun(s[a + 1..d]) && EmailRun(s[d + 1..]);
      PatternGivesShape(s, a, d);
    }
    if EmailShape(s) {
      var a :| 0 < a < |s| && SoleAt(s, a) && InnerDot(s[a + 1..]);
      var j :| 0 < j < |s[a + 1..]| - 1 && s[a + 1..][j] == '.';
      ShapeGivesPattern(s, a, j);
    }
  }

  /** An accepted address has no whitespace, so trimming it changes nothing. */
  lemma EmailUnchangedByTrim(s: string)
    requires MatchesEmail(s)
    ensures Trim(s) == s
  {
    EmailPatternShape(s);
    TrimNoSpace(s);
  }

  lemma LowerEmailChar(c: char)
    ensures IsEmailChar(LowerChar(c)) == IsEmailChar(c)
    ensures LowerChar(c) == '.' <==> c == '.'
  {
  }

  lemma {:induction false} LowerEmailRun(s: string)
    ensures EmailRun(ToLower(s)) == EmailRun(s)
  {
    forall i | 0 <= i < |s| {
      LowerEmailChar(s[i]);
    }
  }

  /** Lower-casing an address does not change whether the pattern accepts it. */
  lemma LowerKeepsEmail(s: string)
    ensures MatchesEmail(ToLower(s)) == MatchesEmail(s)
  {
    var t := ToLower(s);
    assert LowerChar('@') == '@';
    forall a, d | 0 < a < d < |s| - 1
      ensures EmailRun(t[..a]) == EmailRun(s[..a])
      ensures EmailRun(t[a + 1..d]) == EmailRun(s[a + 1..d])
      ensures EmailRun(t[d + 1..]) == EmailRun(s[d + 1..])
      ensures t[a] == '@' <==> s[a] == '@'
      ensures t[d] == '.' <==> s[d] == '.'
    {
      assert t[..a] == ToLower(s[..a]);
      assert t[a + 1..d] == ToLower(s[a + 1..d]);
      assert t[d + 1..] == ToLower(s[d + 1..]);
      LowerEmailRun(s[..a]);
      LowerEmailRun(s[a + 1..d]);
      LowerEmailRun(s[d + 1..]);
      LowerEmailChar(s[a]);
      LowerEmailChar(s[d]);
    }
  }

  /** `\d`, which without the `u` flag is the ASCII digits only. */
  predicate IsDigit(c: char) {
    '0' <= c <= '9'
  }

  /** `^1[3-9]\d{9}$`: eleven digits, the first 1, the second 3 to 9. */
  predicate MatchesMobile(t: string) {
    && |t| == 11
    && t[0] == '1'
    && '3' <= t[1] <= '9'
    && forall i :: 2 <= i < 11 ==> IsDigit(t[i])
  }

  /** The phone check: the mobile pattern applied after removing whitespace and hyphens. */
  predicate IsValidPhone(p: string) {
    MatchesMobile(StripSeparators(p))
  }

  /** Trimming a phone number does not change whether it is accepted. */
  lemma TrimKeepsPhone(p: string)
    ensures IsValidPhone(Trim(p)) == IsValidPhone(p)
  {
    StripIgnoresTrim(p);
  }

  /** An accepted phone number keeps at least eleven characters after trimming. */
  lemma ValidPhoneLength(p: string)
    requires IsValidPhone(p)
    ensures |Trim(p)| >= 11
  {
    StripIgnoresTrim(p);
  }
}
