/**
 * The password pattern of src/user/validation.js:12, ^(?=.*[A-Za-z])(?=.*d)[A-Za-zd@$!%*#?&]*,
 * read as JavaScript evaluates it: no flags, so `^` anchors at the start of the input and `.`
 * matches any character except a line terminator. The second lookahead asks for a literal `d`
 * (the backslash of `\d` is missing), and the trailing character class may repeat zero times,
 * so the consuming part of the pattern always succeeds.
 */
module PasswordPattern {

  /** The characters JavaScript's `.` does not match without the `s` flag. */
  predicate IsLineTerminator(c: char) {
    c == '\n' || c == '\r' || c == '\U{2028}' || c == '\U{2029}'
  }

  predicate IsAsciiLetter(c: char) {
    'A' <= c <= 'Z' || 'a' <= c <= 'z'
  }

  predicate IsLetterD(c: char) {
    c == 'd'
  }

  /** No line terminator among the first `j` characters: `.*` can consume them. */
  ghost predicate DotStarSpans(s: string, j: int)
    requires 0 <= j <= |s|
  {
    forall k :: 0 <= k < j ==> !IsLineTerminator(s[k])
  }

  /**
   * The lookahead `(?=.*P)` tried at the start of `s`: scan until P holds or a line terminator
   * stops `.*`. Its contract is the backtracking reading: some split `.*` | P succeeds.
   */
  function LookaheadAtStart(s: string, p: char -> bool): (r: bool)
    ensures r <==> exists j :: 0 <= j < |s| && DotStarSpans(s, j) && p(s[j])
  {
    if s == [] then false
    else if p(s[0]) then true
    else if IsLineTerminator(s[0]) then
      assert forall j :: 0 < j < |s| ==> !DotStarSpans(s, j);
      false
    else
      var r := LookaheadAtStart(s[1..], p);
      assert forall j :: 0 < j < |s| ==> (DotStarSpans(s, j) <==> DotStarSpans(s[1..], j - 1));
      assert forall j :: 0 < j < |s| ==> s[j] == s[1..][j - 1];
      r
  }

  /** `RegExp.prototype.test` of the pattern as written. */
  function Matches(password: string): bool {
    LookaheadAtStart(password, IsAsciiLetter) && LookaheadAtStart(password, IsLetterD)
    // [A-Za-zd@$!%*#?&]* then matches the empty string, so the match never fails after this.
  }

  /** The text before the first line terminator. */
  function FirstLine(s: string): (r: string)
    ensures r <= s
  {
    if s == [] || IsLineTerminator(s[0]) then [] else [s[0]] + FirstLine(s[1..])
  }

  /** A lookahead for a class without line terminators succeeds iff the first line has such a character. */
  lemma {:induction false} LookaheadIsFirstLineSearch(s: string, p: char -> bool)
    requires forall c :: p(c) ==> !IsLineTerminator(c)
    ensures LookaheadAtStart(s, p) <==> exists c :: c in FirstLine(s) && p(c)
  {
    if s != [] && !IsLineTerminator(s[0]) {
      LookaheadIsFirstLineSearch(s[1..], p);
      assert FirstLine(s) == [s[0]] + FirstLine(s[1..]);
      if p(s[0]) {
        assert s[0] in FirstLine(s);
      }
    }
  }

  /**
   * The pattern as written accepts exactly the passwords whose first line contains a `d`:
   * `d` is itself an ASCII letter, so the letter lookahead adds nothing.
   */
  lemma MatchesIffFirstLineHasD(password: string)
    ensures Matches(password) <==> 'd' in FirstLine(password)
  {
  }

  /** The test's valid password 'P4ssword' passes the pattern as written. */
  lemma TestPasswordMatches()
    ensures Matches("P4ssword")
  {
  }

  predicate IsLower(c: char) { 'a' <= c <= 'z' }
  predicate IsUpper(c: char) { 'A' <= c <= 'Z' }
  predicate IsDigit(c: char) { '0' <= c <= '9' }

  /** Whether some character of `s` satisfies `p`. */
  function Contains(s: string, p: char -> bool): (r: bool)
    ensures r <==> exists i :: 0 <= i < |s| && p(s[i])
  {
    if s == [] then false
    else if p(s[0]) then true
    else
      var r := Contains(s[1..], p);
      assert forall i :: 0 < i < |s| ==> s[i] == s[1..][i - 1];
      r
  }

  /**
   * The rule the pattern's message states: at least one lowercase letter, one uppercase letter
   * and one digit, anywhere in the password.
   */
  function MatchesIntended(password: string): (r: bool)
    ensures r <==>
      (exists i :: 0 <= i < |password| && IsLower(password[i])) &&
      (exists i :: 0 <= i < |password| && IsUpper(password[i])) &&
      (exists i :: 0 <= i < |password| && IsDigit(password[i]))
  {
    Contains(password, IsLower) && Contains(password, IsUpper) && Contains(password, IsDigit)
  }

  /** 'dddddd' has no uppercase letter and no digit, yet the pattern as written accepts it. */
  lemma AcceptsWithoutDigitOrUppercase()
    ensures Matches("dddddd") && !MatchesIntended("dddddd")
  {
  }

  /** 'Abcef1' has a lowercase letter, an uppercase letter and a digit, yet the pattern as written rejects it. */
  lemma RejectsPasswordWithoutD()
    ensures !Matches("Abcef1") && MatchesIntended("Abcef1")
  {
  }

  /** 'P4ssword' satisfies the intended rule too. */
  lemma TestPasswordMatchesIntended()
    ensures MatchesIntended("P4ssword")
  {
  }
}
