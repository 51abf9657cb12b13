/**
 Character and string helpers with the meaning the dashboard's Python code
 gives them: substring tests (`t in s`), upper-casing (`s.upper()`) and the
 whitespace class `\s` of Python's regular expressions on `str`.
 */
module Text {
  import opened Wrappers

  /** `t` occurs in `s` starting at index `i`. */
  predicate OccursAt(s: string, t: string, i: nat) {
    i + |t| <= |s| && s[i..i + |t|] == t
  }

  /** Python's `t in s` on strings. */
  predicate Contains(s: string, t: string) {
    exists i: nat | i <= |s| :: OccursAt(s, t, i)
  }

  /** A string in which some character of `t` never appears does not contain `t`. */
  lemma NotContainsByChar(s: string, t: string, j: nat)
    requires j < |t| && forall i :: 0 <= i < |s| ==> s[i] != t[j]
    ensures !Contains(s, t)
  {
    forall i: nat | i <= |s| ensures !OccursAt(s, t, i) {
      if i + |t| <= |s| {
        assert s[i..i + |t|][j] == s[i + j];
      }
    }
  }

  /**
   Python's `str.upper()` on one character, for the characters the
   election data uses: ASCII letters and the Polish diacritic letters.
   Every other character is returned unchanged.
   */
  function UpperChar(c: char): char {
    if 'a' <= c <= 'z' then (c as int - 32) as char
    else match c
      case 'ą' => 'Ą'
      case 'ć' => 'Ć'
      case 'ę' => 'Ę'
      case 'ł' => 'Ł'
      case 'ń' => 'Ń'
      case 'ó' => 'Ó'
      case 'ś' => 'Ś'
      case 'ź' => 'Ź'
      case 'ż' => 'Ż'
      case _ => c
  }

  /** The lower-case letters `UpperChar` maps: ASCII and the Polish diacritic letters. */
  predicate IsLowerLetter(c: char) {
    'a' <= c <= 'z' || c in {'ą', 'ć', 'ę', 'ł', 'ń', 'ó', 'ś', 'ź', 'ż'}
  }

  /** Python's `s.upper()`, character by character. */
  function Upper(s: string): (u: string)
    ensures |u| == |s|
    ensures forall i :: 0 <= i < |s| ==> u[i] == UpperChar(s[i])
    ensures forall i :: 0 <= i < |u| ==> !IsLowerLetter(u[i])
    ensures forall i :: 0 <= i < |s| && !IsLowerLetter(s[i]) ==> u[i] == s[i]
    ensures forall i :: 0 <= i < |s| && IsLowerLetter(s[i]) ==> u[i] != s[i]
  {
    seq(|s|, i requires 0 <= i < |s| => UpperChar(s[i]))
  }

  /** Upper-casing twice is upper-casing once. */
  lemma UpperIdempotent(s: string)
    ensures Upper(Upper(s)) == Upper(s)
  {
    forall i | 0 <= i < |s|
      ensures Upper(Upper(s))[i] == Upper(s)[i]
    {
      var c := s[i];
      assert UpperChar(UpperChar(c)) == UpperChar(c);
    }
  }

  /**
   The characters matched by `\s` in a Python `str` pattern: exactly those
   for which `str.isspace()` holds.
   */
  predicate IsSpace(c: char) {
    || c == ' ' || c == '\t' || c == '\n' || c == '\r'
    || c == '\U{0B}' || c == '\U{0C}'
    || '\U{1C}' <= c <= '\U{1F}'
    || c == '\U{85}' || c == '\U{A0}' || c == '\U{1680}'
    || '\U{2000}' <= c <= '\U{200A}'
    || c == '\U{2028}' || c == '\U{2029}' || c == '\U{202F}'
    || c == '\U{205F}' || c == '\U{3000}'
  }

  /** The one character that `.` does not match in a Python pattern. */
  predicate IsLineBreak(c: char) {
    c == '\n'
  }

  /** Position of the first `c` in `s`. */
  function FirstIndexOf(s: string, c: char): (r: Option<nat>)
    ensures r.Some? ==> r.value < |s| && s[r.value] == c
    ensures r.Some? ==> forall k :: 0 <= k < r.value ==> s[k] != c
    ensures r.None? ==> forall k :: 0 <= k < |s| ==> s[k] != c
  {
    if |s| == 0 then None
    else if s[0] == c then Some(0)
    else match FirstIndexOf(s[1..], c)
      case None => None
      case Some(k) => Some(k + 1)
  }
}
