/** The string primitives the forms and the recommendation filter use:
    `String.prototype.trim`, `toLowerCase`, `includes`, and the two regular
    expressions of the forms, each written as the set of strings it accepts. */
module Text {

  /** ECMAScript WhiteSpace and LineTerminator code points: what `trim` strips and what `\s` matches. */
  predicate IsSpace(c: char) {
    var n := c as int;
    (0x09 <= n <= 0x0D) || n == 0x20 || n == 0xA0 || n == 0x1680 || (0x2000 <= n <= 0x200A)
    || n == 0x2028 || n == 0x2029 || n == 0x202F || n == 0x205F || n == 0x3000 || n == 0xFEFF
  }

  /** The code points that `.` does not match in a regular expression without the `s` flag. */
  predicate IsLineTerminator(c: char) {
    c == '\n' || c == '\r' || c == '\U{2028}' || c == '\U{2029}'
  }

  /** A string that `trim` turns into the empty string. */
  predicate IsBlank(s: string) {
    forall i :: 0 <= i < |s| ==> IsSpace(s[i])
  }

  /** The first position at or after `i` that holds no white space, or `|s|` when there is none. */
  function SkipSpaces(s: string, i: nat): (k: nat)
    requires i <= |s|
    ensures i <= k <= |s|
    ensures forall m :: i <= m < k ==> IsSpace(s[m])
    ensures k < |s| ==> !IsSpace(s[k])
    decreases |s| - i
  {
    if i < |s| && IsSpace(s[i]) then SkipSpaces(s, i + 1) else i
  }

  /** The position just past the last character in `s[i..j]` that is not white space, or `i` when there
      is none. */
  function SkipSpacesBack(s: string, i: nat, j: nat): (k: nat)
    requires i <= j <= |s|
    ensures i <= k <= j
    ensures forall m :: k <= m < j ==> IsSpace(s[m])
    ensures i < k ==> !IsSpace(s[k - 1])
    decreases j
  {
    if i < j && IsSpace(s[j - 1]) then SkipSpacesBack(s, i, j - 1) else j
  }

  /** `String.prototype.trim`: `s` without its leading and trailing white space. */
  function Trim(s: string): (r: string)
    ensures exists i, j :: 0 <= i <= j <= |s| && r == s[i..j] && IsBlank(s[..i]) && IsBlank(s[j..])
    ensures r != "" ==> !IsSpace(r[0]) && !IsSpace(r[|r| - 1])
    ensures r == "" <==> IsBlank(s)
  {
    var i := SkipSpaces(s, 0);
    var j := SkipSpacesBack(s, i, |s|);
    assert IsBlank(s[..i]) by {
      forall m | 0 <= m < i ensures IsSpace(s[..i][m]) {
        assert s[..i][m] == s[m];
      }
    }
    assert IsBlank(s[j..]) by {
      forall m | 0 <= m < |s| - j ensures IsSpace(s[j..][m]) {
        assert s[j..][m] == s[j + m];
      }
    }
    assert i == j ==> i == |s|;
    s[i..j]
  }

  /** `toLowerCase` on one character, for the ASCII letters only. */
  function LowerChar(c: char): char {
    if 'A' <= c <= 'Z' then (c as int + 32) as char else c
  }

  function ToLower(s: string): (r: string)
    ensures |r| == |s| && forall i :: 0 <= i < |s| ==> r[i] == LowerChar(s[i])
  {
    seq(|s|, i requires 0 <= i < |s| => LowerChar(s[i]))
  }

  /** `sub` occurs in `s` starting at position `i`. */
  predicate OccursAt(s: string, sub: string, i: nat) {
    i + |sub| <= |s| && s[i..i + |sub|] == sub
  }

  /** `s.includes(sub)`: `sub` occurs in `s` as a contiguous piece. */
  predicate Contains(s: string, sub: string) {
    exists i: nat :: i <= |s| && OccursAt(s, sub, i)
  }

  /** `/^https?:\/\/.+/.test(s)`: a scheme prefix followed by at least one character other than a line terminator. */
  predicate IsHttpUrl(s: string)
    ensures IsHttpUrl(s) ==> |s| >= 8 && s[..4] == "http"
  {
    || (|s| > 7 && s[..7] == "http://" && !IsLineTerminator(s[7]))
    || (|s| > 8 && s[..8] == "https://" && !IsLineTerminator(s[8]))
  }

  /** A character of the class `[^\s@]`. */
  predicate IsPlain(c: char) {
    !IsSpace(c) && c != '@'
  }

  predicate AllPlain(s: string) {
    forall i :: 0 <= i < |s| ==> IsPlain(s[i])
  }

  /** `/^[^\s@]+@[^\s@]+\.[^\s@]+$/.test(s)`: three non-empty runs of `[^\s@]`
      separated by an `@` and by a `.`. */
  predicate IsEmail(s: string)
    ensures IsEmail(s) ==> |s| >= 5 && IsPlain(s[0]) && IsPlain(s[|s| - 1])
  {
    exists at, dot ::
      && 0 < at < |s| && at + 1 < dot < |s| - 1
      && s[at] == '@' && s[dot] == '.'
      && AllPlain(s[..at]) && AllPlain(s[at + 1..dot]) && AllPlain(s[dot + 1..])
  }

  /** An address the regular expression accepts holds exactly one `@`, and no white space. */
  lemma EmailShape(s: string, at: int, dot: int, k: int)
    requires 0 < at < |s| && at + 1 < dot < |s| - 1 && s[at] == '@' && s[dot] == '.'
    requires AllPlain(s[..at]) && AllPlain(s[at + 1..dot]) && AllPlain(s[dot + 1..])
    requires 0 <= k < |s|
    ensures s[k] == '@' <==> k == at
    ensures !IsSpace(s[k])
  {
    if k < at {
      assert s[..at][k] == s[k];
    } else if at < k < dot {
      assert s[at + 1..dot][k - at - 1] == s[k];
    } else if dot < k {
      assert s[dot + 1..][k - dot - 1] == s[k];
    }
  }

  /** Every accepted address is non-blank, so the "required" branch and the pattern branch never overlap. */
  lemma EmailIsNotBlank(s: string)
    requires IsEmail(s)
    ensures !IsBlank(s)
  {
    var at, dot :| 0 < at < |s| && at + 1 < dot < |s| - 1 && s[at] == '@' && s[dot] == '.'
      && AllPlain(s[..at]) && AllPlain(s[at + 1..dot]) && AllPlain(s[dot + 1..]);
    assert s[at] == '@' && !IsSpace(s[at]);
  }
}
