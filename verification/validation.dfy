/** The two format rules a new account must satisfy (Registration.cpp:21-35). */
module Validation {
  import opened Wrappers
  import opened Text

  /** The regular expression `^[a-z]+[0-9]*$` read as a language: `s` splits at
      some `k >= 1` into lower-case letters followed by digits. */
  ghost predicate MatchesUsernamePattern(s: string) {
    exists k :: 1 <= k <= |s| && All(IsLower, s[..k]) && All(IsDigit, s[k..])
  }

  /** `isValidUsername` (Registration.cpp:21-23): a run of lower-case letters,
      at least one, then a run of digits that reaches the end. */
  function IsValidUsername(s: string): (b: bool)
    ensures b ==> |s| >= 1 && IsLower(s[0])
    ensures b ==> forall i :: 0 <= i < |s| ==> IsLower(s[i]) || IsDigit(s[i])
  {
    var k := SkipWhile(IsLower, s, 0);
    k >= 1 && SkipWhile(IsDigit, s, k) == |s|
  }

  /** The scan accepts exactly the strings the regular expression matches. */
  lemma UsernamePattern(s: string)
    ensures IsValidUsername(s) <==> MatchesUsernamePattern(s)
  {
    var k := SkipWhile(IsLower, s, 0);
    if IsValidUsername(s) {
      assert All(IsLower, s[..k]);
      assert All(IsDigit, s[k..]);
    }
    if MatchesUsernamePattern(s) {
      var k' :| 1 <= k' <= |s| && All(IsLower, s[..k']) && All(IsDigit, s[k'..]);
      assert forall i :: 0 <= i < k' ==> IsLower(s[..k'][i]) && s[..k'][i] == s[i];
      assert forall i :: k' <= i < |s| ==> IsDigit(s[k'..][i - k']) && s[k'..][i - k'] == s[i];
    }
  }

  /** The three flags of the character scan in Registration.cpp:27-33. */
  datatype Classes = Classes(letter: bool, digit: bool, special: bool)

  /** The flags after scanning `s` from left to right; each character sets
      exactly one flag: letter, else digit, else special. */
  function ScanClasses(s: string): (c: Classes)
    ensures c.letter <==> exists i :: 0 <= i < |s| && IsAlpha(s[i])
    ensures c.digit <==> exists i :: 0 <= i < |s| && IsDigit(s[i])
    ensures c.special <==> exists i :: 0 <= i < |s| && IsSpecial(s[i])
  {
    if s == [] then Classes(false, false, false)
    else
      var init := s[..|s| - 1];
      var c := ScanClasses(init);
      var ch := s[|s| - 1];
      assert forall i :: 0 <= i < |init| ==> init[i] == s[i];
      if IsAlpha(ch) then c.(letter := true)
      else if IsDigit(ch) then c.(digit := true)
      else c.(special := true)
  }

  /** A character that is neither a letter nor a digit. */
  predicate IsSpecial(c: char) {
    !IsAlpha(c) && !IsDigit(c)
  }

  /** `isValidPassword` (Registration.cpp:25-35): at least six characters with at
      least one letter, one digit and one character that is neither. */
  function IsValidPassword(s: string): (b: bool)
    ensures b <==> |s| >= 6
                   && (exists i :: 0 <= i < |s| && IsAlpha(s[i]))
                   && (exists i :: 0 <= i < |s| && IsDigit(s[i]))
                   && (exists i :: 0 <= i < |s| && IsSpecial(s[i]))
  {
    if |s| < 6 then false
    else
      var c := ScanClasses(s);
      c.letter && c.digit && c.special
  }

  /** The rule the store needs on top of `IsValidPassword`: no '|', since '|'
      separates the fields of a stored line. A storable password is exactly a
      valid one that one `getline(ss, field, '|')` reads back whole. */
  function IsStorablePassword(s: string): (b: bool)
    ensures b <==> IsValidPassword(s) && Cut(s) == (s, None)
    ensures b ==> |s| >= 6
  {
    if '|' !in s then CutPlain(s); IsValidPassword(s)
    else false
  }

  /** A valid username holds nothing `trim` or the field splitter could alter. */
  lemma ValidUsernameIsPlain(s: string)
    requires IsValidUsername(s)
    ensures '|' !in s && Trimmed(s)
  {
  }
}
