/**
 * The string primitives the intake handler and its schema rely on:
 * the ECMAScript whitespace class (what the regular-expression class `\s`
 * matches and what `String.prototype.trim` removes), trimming, ASCII
 * lower-casing, and the removal of whitespace and hyphens that precedes the
 * phone check.
 */
module Text {

  /** ECMAScript WhiteSpace and LineTerminator code points. */
  predicate IsSpace(c: char) {
    || c == '\t' || c == '\n' || c == '\U{000B}' || c == '\U{000C}' || c == '\r'
    || c == ' ' || c == '\U{00A0}' || c == '\U{1680}'
    || ('\U{2000}' <= c <= '\U{200A}')
    || c == '\U{2028}' || c == '\U{2029}' || c == '\U{202F}' || c == '\U{205F}'
    || c == '\U{3000}' || c == '\U{FEFF}'
  }

  predicate AllSpace(s: string) {
    forall i :: 0 <= i < |s| ==> IsSpace(s[i])
  }

  predicate NoSpace(s: string) {
    forall i :: 0 <= i < |s| ==> !IsSpace(s[i])
  }

  /** Neither the first nor the last character is whitespace. */
  predicate IsTrimmed(s: string) {
    s == [] || (!IsSpace(s[0]) && !IsSpace(s[|s| - 1]))
  }

  /** The first index at or after i that is not whitespace (or |s|). */
  function SkipSpace(s: string, i: nat): (j: nat)
    requires i <= |s|
    ensures i <= j <= |s|
    ensures forall k :: i <= k < j ==> IsSpace(s[k])
    ensures j < |s| ==> !IsSpace(s[j])
    decreases |s| - i
  {
    if i < |s| && IsSpace(s[i]) then SkipSpace(s, i + 1) else i
  }

  /** The start of the run of whitespace that ends at j. */
  function SkipSpaceBack(s: string, j: nat): (i: nat)
    requires j <= |s|
    ensures i <= j
    ensures forall k :: i <= k < j ==> IsSpace(s[k])
    ensures i > 0 ==> !IsSpace(s[i - 1])
  {
    if j > 0 && IsSpace(s[j - 1]) then SkipSpaceBack(s, j - 1) else j
  }

  /**
   * `String.prototype.trim`: the result is the middle of the input, everything
   * cut away on either side is whitespace, and the result has no whitespace at
   * either end.
   */
  function Trim(s: string): (r: string)
    ensures IsTrimmed(r)
    ensures var a := SkipSpace(s, 0);
      && a + |r| <= |s| && r == s[a..a + |r|]
      && (forall k :: 0 <= k < a ==> IsSpace(s[k]))
      && (forall k :: a + |r| <= k < |s| ==> IsSpace(s[k]))
  {
    var a := SkipSpace(s, 0);
    var b := if a == |s| then a else SkipSpaceBack(s, |s|);
    s[a..b]
  }

  /** Trimming a string with no whitespace at either end changes nothing. */
  lemma TrimTrimmed(s: string)
    requires IsTrimmed(s)
    ensures Trim(s) == s
  {
  }

  /** Trimming is idempotent. */
  lemma TrimIdempotent(s: string)
    ensures Trim(Trim(s)) == Trim(s)
  {
    TrimTrimmed(Trim(s));
  }

  /** A string without any whitespace is its own trim. */
  lemma TrimNoSpace(s: string)
    requires NoSpace(s)
    ensures Trim(s) == s
  {
    TrimTrimmed(s);
  }

  predicate IsUpper(c: char) {
    'A' <= c <= 'Z'
  }

  /** Lower-cases one character; only the ASCII letters A-Z are mapped. */
  function LowerChar(c: char): (r: char)
    ensures IsUpper(c) ==> 'a' <= r <= 'z' && r as int == c as int + 32
    ensures !IsUpper(c) ==> r == c
    ensures !IsUpper(r)
    ensures IsSpace(r) == IsSpace(c)
  {
    if IsUpper(c) then (c as int + 32) as char else c
  }

  /** `String.prototype.toLowerCase` on ASCII: maps every character, keeps the length, leaves no upper-case letter. */
  function ToLower(s: string): (r: string)
    ensures |r| == |s|
    ensures forall i :: 0 <= i < |s| ==> r[i] == LowerChar(s[i])
    ensures forall i :: 0 <= i < |r| ==> !IsUpper(r[i])
  {
    if s == [] then [] else [LowerChar(s[0])] + ToLower(s[1..])
  }

  /** Lower-casing keeps a trimmed string trimmed. */
  lemma LowerKeepsTrimmed(s: string)
    requires IsTrimmed(s)
    ensures IsTrimmed(ToLower(s))
  {
    if s != [] {
      var t := ToLower(s);
      assert t[0] == LowerChar(s[0]) && t[|t| - 1] == LowerChar(s[|s| - 1]);
    }
  }

  /** Lower-casing is idempotent. */
  lemma ToLowerIdempotent(s: string)
    ensures ToLower(ToLower(s)) == ToLower(s)
  {
  }

  /**
   * Trimming and lower-casing commute, so the order in which the schema's two
   * setters run does not change the stored address.
   */
  lemma TrimLowerCommute(s: string)
    ensures Trim(ToLower(s)) == ToLower(Trim(s))
  {
    var a := SkipSpace(s, 0);
    var b := if a == |s| then a else SkipSpaceBack(s, |s|);
    SkipSpaceLower(s, 0);
    SkipSpaceBackLower(s, |s|);
    LowerSlice(s, a, b);
  }

  lemma {:induction false} SkipSpaceLower(s: string, i: nat)
    requires i <= |s|
    ensures SkipSpace(ToLower(s), i) == SkipSpace(s, i)
    decreases |s| - i
  {
    if i < |s| {
      assert ToLower(s)[i] == LowerChar(s[i]);
      if IsSpace(s[i]) {
        SkipSpaceLower(s, i + 1);
      }
    }
  }

  lemma {:induction false} SkipSpaceBackLower(s: string, j: nat)
    requires j <= |s|
    ensures SkipSpaceBack(ToLower(s), j) == SkipSpaceBack(s, j)
  {
    if j > 0 {
      assert ToLower(s)[j - 1] == LowerChar(s[j - 1]);
      if IsSpace(s[j - 1]) {
        SkipSpaceBackLower(s, j - 1);
      }
    }
  }

  lemma LowerSlice(s: string, a: nat, b: nat)
    requires a <= b <= |s|
    ensures ToLower(s)[a..b] == ToLower(s[a..b])
  {
    forall k | 0 <= k < b - a
      ensures ToLower(s)[a..b][k] == ToLower(s[a..b])[k]
    {
      LowerSliceAt(s, a, b, k);
    }
  }

  lemma LowerSliceAt(s: string, a: nat, b: nat, k: nat)
    requires a <= b <= |s| && k < b - a
    ensures ToLower(s)[a..b][k] == ToLower(s[a..b])[k]
  {
    assert s[a..b][k] == s[a + k];
  }

  /** The characters the phone check discards: the class `[\s-]`. */
  predicate IsSeparator(c: char) {
    IsSpace(c) || c == '-'
  }

  /** `s.replace(/[\s-]/g, '')`: keeps exactly the non-separator characters, in order. */
  function StripSeparators(s: string): (r: string)
    ensures |r| <= |s|
    ensures forall i :: 0 <= i < |r| ==> !IsSeparator(r[i])
  {
    if s == [] then []
    else if IsSeparator(s[0]) then StripSeparators(s[1..])
    else [s[0]] + StripSeparators(s[1..])
  }

  /** A character survives stripping exactly when it occurs in the input and is not a separator. */
  lemma {:induction false} StripKeeps(s: string, c: char)
    ensures c in StripSeparators(s) <==> c in s && !IsSeparator(c)
  {
    if s != [] {
      StripKeeps(s[1..], c);
      assert c in s <==> c == s[0] || c in s[1..];
    }
  }

  /** Stripping distributes over concatenation. */
  lemma {:induction false} StripAppend(a: string, b: string)
    ensures StripSeparators(a + b) == StripSeparators(a) + StripSeparators(b)
  {
    if a == [] {
      assert a + b == b;
    } else {
      assert (a + b)[0] == a[0] && (a + b)[1..] == a[1..] + b;
      StripAppend(a[1..], b);
    }
  }

  /** A string without separators is left as it is. */
  lemma {:induction false} StripClean(s: string)
    requires forall i :: 0 <= i < |s| ==> !IsSeparator(s[i])
    ensures StripSeparators(s) == s
  {
    if s != [] {
      StripClean(s[1..]);
      assert s == [s[0]] + s[1..];
    }
  }

  /** A run of whitespace strips to nothing. */
  lemma {:induction false} StripSpace(s: string)
    requires AllSpace(s)
    ensures StripSeparators(s) == []
  {
    if s != [] {
      StripSpace(s[1..]);
    }
  }

  /** Trimming first does not change what the phone check sees. */
  lemma StripIgnoresTrim(s: string)
    ensures StripSeparators(Trim(s)) == StripSeparators(s)
  {
    var r := Trim(s);
    var a := SkipSpace(s, 0);
    var b := a + |r|;
    assert s == s[..a] + r + s[b..];
    assert AllSpace(s[..a]);
    assert AllSpace(s[b..]);
    StripAppend(s[..a] + r, s[b..]);
    StripAppend(s[..a], r);
    StripSpace(s[..a]);
    StripSpace(s[b..]);
  }
}
