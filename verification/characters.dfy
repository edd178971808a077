/** Character classes the password validators test, and Python's `any`
    over the characters of a string. Python's `str.isdigit`, `str.isupper`
    and `str.islower` are Unicode-aware; here they are their ASCII ranges. */
module Characters {

  /** `character.isdigit()`, restricted to the ASCII digits. */
  predicate IsDigit(c: char) {
    '0' <= c <= '9'
  }

  /** `character.isupper()`, restricted to the ASCII capital letters. */
  predicate IsUpper(c: char) {
    'A' <= c <= 'Z'
  }

  /** `character.islower()`, restricted to the ASCII small letters. */
  predicate IsLower(c: char) {
    'a' <= c <= 'z'
  }

  /** The fixed set of special characters of `SpecialCharacterValidator`.
      The Python literal writes `[\]`; `\]` is not an escape there, so the
      backslash is one of the characters. */
  const SpecialCharacters: string := "!\"#$%&'()*+,-./:;<=>?@[\\]^_`{|}~"

  /** `character in self.special_characters`. */
  predicate IsSpecial(c: char) {
    c in SpecialCharacters
  }

  /** Printable ASCII that is neither a letter, a digit nor the space: an
      independent description of the special set. */
  predicate IsAsciiPunctuation(c: char) {
    '!' <= c <= '~' && !IsDigit(c) && !IsUpper(c) && !IsLower(c)
  }

  /** The property the validators ask of a password: some character has `p`. */
  ghost predicate Contains(s: string, p: char -> bool) {
    exists i :: 0 <= i < |s| && p(s[i])
  }

  /** Python's `any(p(character) for character in s)`: scans left to right
      and stops at the first character that has `p`. */
  function Any(s: string, p: char -> bool): (r: bool)
    ensures r <==> Contains(s, p)
  {
    if |s| == 0 then false
    else if p(s[0]) then true
    else
      var rest := Any(s[1..], p);
      assert rest <==> Contains(s[1..], p);
      assert Contains(s[1..], p) ==> Contains(s, p) by {
        if Contains(s[1..], p) {
          var i :| 0 <= i < |s[1..]| && p(s[1..][i]);
          assert s[i + 1] == s[1..][i];
        }
      }
      assert Contains(s, p) ==> Contains(s[1..], p) by {
        if Contains(s, p) {
          var i :| 0 <= i < |s| && p(s[i]);
          assert i != 0;
          assert s[1..][i - 1] == s[i];
        }
      }
      rest
  }

  /** The special set has 32 characters, none of them twice. */
  lemma SpecialCharactersAreDistinct()
    ensures |SpecialCharacters| == 32
    ensures forall i, j :: 0 <= i < j < |SpecialCharacters| ==> SpecialCharacters[i] != SpecialCharacters[j]
  {
  }

  /** The special set is exactly ASCII punctuation: the printable characters
      other than letters, digits and the space. */
  lemma SpecialIsAsciiPunctuation(c: char)
    ensures IsSpecial(c) <==> IsAsciiPunctuation(c)
  {
  }

  /** If some character of `s` has `p`, then so does some character of any
      string holding every character of `s`. */
  lemma ContainsCovered(s: string, t: string, p: char -> bool)
    requires forall i :: 0 <= i < |s| ==> s[i] in t
    ensures Contains(s, p) ==> Contains(t, p)
  {
    if Contains(s, p) {
      var i :| 0 <= i < |s| && p(s[i]);
      var j :| 0 <= j < |t| && t[j] == s[i];
    }
  }

  /** Every character of `s` occurs in `u + s + v`. */
  lemma InfixCovers(u: string, s: string, v: string)
    ensures forall i :: 0 <= i < |s| ==> s[i] in u + s + v
  {
    forall i | 0 <= i < |s|
      ensures s[i] in u + s + v
    {
      assert (u + s + v)[|u| + i] == s[i];
    }
  }

  /** Two pointwise-equal character predicates hold of the same strings. */
  lemma ContainsSame(s: string, p: char -> bool, q: char -> bool)
    requires forall i :: 0 <= i < |s| ==> p(s[i]) == q(s[i])
    ensures Contains(s, p) <==> Contains(s, q)
  {
  }
}
