/** Character classes and the string routines the credential store is built from:
    `trim`, field splitting on '|', right padding, and decimal integers as `stoi`
    reads them and `operator<<` writes them (Registration.cpp). */
module Text {
  import opened Wrappers

  /** The four characters `trim` strips: space, tab, carriage return, line feed. */
  predicate IsTrimmable(c: char) {
    c == ' ' || c == '\t' || c == '\r' || c == '\n'
  }

  /** `isspace` in the "C" locale: the trimmable characters plus vertical tab and form feed. */
  predicate IsSpace(c: char) {
    IsTrimmable(c) || c == '\U{B}' || c == '\U{C}'
  }

  predicate IsDigit(c: char) {
    '0' <= c <= '9'
  }

  predicate IsLower(c: char) {
    'a' <= c <= 'z'
  }

  /** `isalpha` in the "C" locale (ASCII letters only). */
  predicate IsAlpha(c: char) {
    IsLower(c) || 'A' <= c <= 'Z'
  }

  /** Every character of `s` satisfies `p`. */
  predicate All(p: char -> bool, s: string) {
    forall i :: 0 <= i < |s| ==> p(s[i])
  }

  /** No trimmable character at either end of `s`. */
  predicate Trimmed(s: string) {
    s == [] || (!IsTrimmable(s[0]) && !IsTrimmable(s[|s| - 1]))
  }

  /** The end of the run of `p`-characters that starts at `i`. */
  function SkipWhile(p: char -> bool, s: string, i: nat): (k: nat)
    requires i <= |s|
    ensures i <= k <= |s|
    ensures forall j :: i <= j < k ==> p(s[j])
    ensures k < |s| ==> !p(s[k])
    decreases |s| - i
  {
    if i == |s| || !p(s[i]) then i else SkipWhile(p, s, i + 1)
  }

  /** The start of the run of `p`-characters that ends just before `j`. */
  function SkipWhileBack(p: char -> bool, s: string, j: nat): (k: nat)
    requires j <= |s|
    ensures k <= j
    ensures forall m :: k <= m < j ==> p(s[m])
    ensures 0 < k ==> !p(s[k - 1])
  {
    if j == 0 || !p(s[j - 1]) then j else SkipWhileBack(p, s, j - 1)
  }

  /** `trim` (Registration.cpp:14-19): the part of `s` between the first and the
      last character that is not a space, tab, carriage return or line feed. */
  function Trim(s: string): (r: string)
    ensures Trimmed(r)
    ensures r == [] <==> All(IsTrimmable, s)
  {
    var first := SkipWhile(IsTrimmable, s, 0);
    if first == |s| then ""
    else
      var last := SkipWhileBack(IsTrimmable, s, |s|);
      assert first < last;
      s[first..last]
  }

  /** `trim` cuts only trimmable characters, and only from the two ends. */
  lemma TrimInfix(s: string)
    ensures exists i, j :: 0 <= i <= j <= |s| && Trim(s) == s[i..j]
                           && All(IsTrimmable, s[..i]) && All(IsTrimmable, s[j..])
  {
    var first := SkipWhile(IsTrimmable, s, 0);
    if first == |s| {
      assert Trim(s) == s[|s|..|s|];
      assert All(IsTrimmable, s[..|s|]) && All(IsTrimmable, s[|s|..]);
    } else {
      var last := SkipWhileBack(IsTrimmable, s, |s|);
      assert Trim(s) == s[first..last];
      assert All(IsTrimmable, s[..first]);
      assert All(IsTrimmable, s[last..]);
    }
  }

  /** A character that does not occur in `s` does not occur in `trim(s)`. */
  lemma TrimKeepsOut(s: string, c: char)
    requires c !in s
    ensures c !in Trim(s)
  {
    var first := SkipWhile(IsTrimmable, s, 0);
    if first < |s| {
      var last := SkipWhileBack(IsTrimmable, s, |s|);
      assert forall k :: first <= k < last ==> s[first..last][k - first] == s[k];
    }
  }

  /** A string with no trimmable ends comes back unchanged from `trim` even after
      padding with trimmable characters on the right. */
  lemma TrimPadded(s: string, pad: string)
    requires Trimmed(s)
    requires All(IsTrimmable, pad)
    ensures Trim(s + pad) == s
  {
    var t := s + pad;
    if s == [] {
      assert t == pad;
    } else {
      assert !IsTrimmable(t[0]);
      assert SkipWhile(IsTrimmable, t, 0) == 0;
      var last := SkipWhileBack(IsTrimmable, t, |t|);
      assert t[|s| - 1] == s[|s| - 1];
      assert last == |s|;
      assert t[0..|s|] == s;
    }
  }

  /** `n` spaces. */
  function Spaces(n: nat): (r: string)
    ensures |r| == n && All(IsTrimmable, r)
  {
    seq(n, _ => ' ')
  }

  /** `left << setw(w) << s`: pads `s` with spaces on the right up to `w`
      characters and never truncates it. */
  function PadRight(s: string, w: nat): (r: string)
    ensures |r| == if |s| < w then w else |s|
    ensures r[..|s|] == s
    ensures forall k :: |s| <= k < |r| ==> r[k] == ' '
    ensures r == s + Spaces(|r| - |s|)
  {
    if |s| < w then s + Spaces(w - |s|) else s
  }

  /** `trim` undoes the padding of a string with no trimmable ends. */
  lemma TrimPadRight(s: string, w: nat)
    requires Trimmed(s)
    ensures Trim(PadRight(s, w)) == s
  {
    TrimPadded(s, Spaces(|PadRight(s, w)| - |s|));
  }

  /** Padding adds only spaces, so it adds no '|'. */
  lemma PadRightNoPipe(s: string, w: nat)
    requires '|' !in s
    ensures '|' !in PadRight(s, w)
  {
    var r := PadRight(s, w);
    forall k | 0 <= k < |r|
      ensures r[k] != '|'
    {
      if k < |s| {
        assert r[k] == r[..|s|][k];
      }
    }
  }

  /** Padding a string that holds a '|' pads the text after its first '|'. */
  lemma PadRightAfterPipe(before: string, after: string, w: nat)
    ensures PadRight(before + "|" + after, w)
            == before + "|" + (after + Spaces(|PadRight(before + "|" + after, w)| - |before + "|" + after|))
  {
  }

  /** The first position of `c` in `s`, or |s| when it does not occur. */
  function IndexOf(s: string, c: char): (k: nat)
    ensures k <= |s|
    ensures c !in s[..k]
    ensures k < |s| ==> s[k] == c
  {
    var k := SkipWhile(x => x != c, s, 0);
    assert forall m :: 0 <= m < k ==> s[..k][m] == s[m];
    k
  }

  /** `getline(ss, field, '|')` on the rest `s` of a line: the field read (up to the
      first '|') and, when a '|' ended it, the text after that '|'. */
  function Cut(s: string): (r: (string, Option<string>))
    ensures '|' !in r.0
    ensures r.1.None? ==> r.0 == s
    ensures r.1.Some? ==> s == r.0 + "|" + r.1.value
  {
    var k := IndexOf(s, '|');
    if k < |s| then
      assert s == s[..k] + "|" + s[k + 1..];
      (s[..k], Some(s[k + 1..]))
    else
      (s, None)
  }

  lemma CutJoined(a: string, b: string)
    requires '|' !in a
    ensures Cut(a + "|" + b) == (a, Some(b))
  {
    var s := a + "|" + b;
    assert s[..|a|] == a;
    assert s[|a|] == '|';
    assert s[|a| + 1..] == b;
  }

  lemma CutPlain(a: string)
    requires '|' !in a
    ensures Cut(a) == (a, None)
  {
  }

  /** The three fields the three `getline(ss, …, '|')` calls read from one line
      (Registration.cpp:57-61); a field after the end of the line reads as "". */
  function Fields(line: string): (r: (string, string, string))
    ensures '|' !in r.0 && '|' !in r.1 && '|' !in r.2
  {
    var (f0, rest0) := Cut(line);
    var (f1, rest1) := if rest0.Some? then Cut(rest0.value) else ("", None);
    var f2 := if rest1.Some? then Cut(rest1.value).0 else "";
    (f0, f1, f2)
  }

  /** With two separators in place the fields are what lies before, between and
      after them, the last one ending at a further '|' if there is one. */
  lemma FieldsJoined(a: string, b: string, c: string)
    requires '|' !in a && '|' !in b
    ensures Fields(a + "|" + b + "|" + c) == (a, b, Cut(c).0)
    ensures '|' !in c ==> Fields(a + "|" + b + "|" + c) == (a, b, c)
  {
    assert a + "|" + b + "|" + c == a + "|" + (b + "|" + c);
    CutJoined(a, b + "|" + c);
    CutJoined(b, c);
    if '|' !in c {
      CutPlain(c);
    }
  }

  // Decimal integers

  function DigitChar(d: nat): (c: char)
    requires d < 10
    ensures IsDigit(c)
  {
    ('0' as int + d) as char
  }

  function DigitValue(c: char): (d: nat)
    requires IsDigit(c)
    ensures d < 10 && DigitChar(d) == c
  {
    c as int - '0' as int
  }

  /** The decimal digits of `n`, most significant first, with no leading zero. */
  function NatToString(n: nat): (r: string)
    ensures |r| >= 1 && All(IsDigit, r)
  {
    if n < 10 then [DigitChar(n)] else NatToString(n / 10) + [DigitChar(n % 10)]
  }

  /** What `operator<<` writes for an `int`. */
  function IntToString(n: int): (r: string)
    ensures |r| >= 1
  {
    if n < 0 then "-" + NatToString(-n) else NatToString(n)
  }

  /** The value of a string of decimal digits. */
  function DigitsValue(s: string): nat
    requires All(IsDigit, s)
  {
    if s == [] then 0 else 10 * DigitsValue(s[..|s| - 1]) + DigitValue(s[|s| - 1])
  }

  lemma {:induction false} DigitsRoundTrip(n: nat)
    ensures DigitsValue(NatToString(n)) == n
  {
    var s := NatToString(n);
    if n >= 10 {
      DigitsRoundTrip(n / 10);
      assert s[..|s| - 1] == NatToString(n / 10);
    }
  }

  /** `stoi` (Registration.cpp:70): skips `isspace` characters, reads an optional
      sign and the longest run of digits after it; no digit there means the call
      throws, modelled as None. */
  function ParseInt(s: string): (r: Option<int>)
    ensures r.Some? <==> var j := SignEnd(s).1; j < |s| && IsDigit(s[j])
  {
    var (negative, j) := SignEnd(s);
    var k := SkipWhile(IsDigit, s, j);
    if k == j then None
    else
      var v: int := DigitsValue(s[j..k]);
      Some(if negative then -v else v)
  }

  /** Whether a '-' sign was read, and the position after the leading white space
      and an optional sign. */
  function SignEnd(s: string): (r: (bool, nat))
    ensures r.1 <= |s|
  {
    var i := SkipWhile(IsSpace, s, 0);
    if i < |s| && (s[i] == '-' || s[i] == '+') then (s[i] == '-', i + 1) else (false, i)
  }

  /** `stoi` reads back exactly the integer `operator<<` wrote. */
  lemma IntRoundTrip(n: int)
    ensures ParseInt(IntToString(n)) == Some(n)
  {
    var s := IntToString(n);
    var d := if n < 0 then -n else n;
    var digits := NatToString(d);
    DigitsRoundTrip(d);
    assert !IsSpace(s[0]);
    assert SkipWhile(IsSpace, s, 0) == 0;
    var (negative, j) := SignEnd(s);
    assert negative <==> n < 0;
    assert j == |s| - |digits|;
    assert s[j..] == digits;
    var k := SkipWhile(IsDigit, s, j);
    assert k == |s|;
    assert s[j..k] == digits;
  }
}
