/** Character classes, lower-casing and word tokens over ASCII text.
    Word characters are what `\b` and `\w` see: letters, digits and `_`. */
module Text {

  predicate IsUpper(c: char) { 'A' <= c <= 'Z' }
  predicate IsLower(c: char) { 'a' <= c <= 'z' }
  predicate IsLetter(c: char) { IsUpper(c) || IsLower(c) }
  predicate IsDigit(c: char) { '0' <= c <= '9' }
  predicate IsWordChar(c: char) { IsLetter(c) || IsDigit(c) || c == '_' }

  /** `s` is a non-empty run of word characters. */
  predicate IsWordRun(s: string) {
    s != [] && forall i :: 0 <= i < |s| ==> IsWordChar(s[i])
  }

  /** `str.lower` on one ASCII character. */
  function LowerChar(c: char): (d: char)
    ensures IsLetter(d) <==> IsLetter(c)
    ensures IsLetter(c) ==> IsLower(d)
    ensures IsUpper(c) ==> d as int - 'a' as int == c as int - 'A' as int
    ensures !IsLetter(c) ==> d == c
    ensures IsLower(c) ==> d == c
    ensures IsWordChar(d) <==> IsWordChar(c)
  {
    if IsUpper(c) then (c as int + 32) as char else c
  }

  /** `str.lower`: every upper-case letter becomes lower-case, everything else stays. */
  function Lower(s: string): (r: string)
    ensures |r| == |s|
    ensures forall i :: 0 <= i < |s| ==> r[i] == LowerChar(s[i])
  {
    seq(|s|, i requires 0 <= i < |s| => LowerChar(s[i]))
  }

  lemma LowerSlice(s: string, i: int, j: int)
    requires 0 <= i <= j <= |s|
    ensures Lower(s[i..j]) == Lower(s)[i..j]
  {
    assert forall k :: 0 <= k < j - i ==> Lower(s[i..j])[k] == Lower(s)[i..j][k];
  }

  /** Lower-casing leaves no upper-case letter and is idempotent. */
  lemma LowerIsLower(s: string)
    ensures forall i :: 0 <= i < |s| ==> !IsUpper(Lower(s)[i])
    ensures Lower(Lower(s)) == Lower(s)
  {
    assert forall i :: 0 <= i < |s| ==> Lower(Lower(s))[i] == Lower(s)[i];
  }

  /** Length of the longest prefix of `s` made of word characters. */
  function WordRun(s: string): (n: nat)
    ensures n <= |s|
    ensures forall i :: 0 <= i < n ==> IsWordChar(s[i])
    ensures n == |s| || !IsWordChar(s[n])
  {
    if s == [] || !IsWordChar(s[0]) then 0 else 1 + WordRun(s[1..])
  }

  /** Length of the first token of `s`: a maximal run of word characters,
      or a single character that is not a word character. */
  function TokenLen(s: string): (n: nat)
    requires s != []
    ensures 0 < n <= |s|
    ensures IsWordChar(s[0]) ==> IsWordRun(s[..n]) && (n == |s| || !IsWordChar(s[n]))
    ensures !IsWordChar(s[0]) ==> n == 1
  {
    if IsWordChar(s[0]) then WordRun(s) else 1
  }

  /** No token spans the point where `a` meets `b`: one side is empty or
      the characters on either side are not both word characters. */
  predicate Joinable(a: string, b: string) {
    a == [] || b == [] || !IsWordChar(a[|a| - 1]) || !IsWordChar(b[0])
  }

  /** Tokenising `a + b` starts with the same token as tokenising `a` alone
      when the two meet at a token boundary. */
  lemma TokenLenConcat(a: string, b: string)
    requires a != [] && Joinable(a, b)
    ensures TokenLen(a + b) == TokenLen(a)
  {
    if IsWordChar(a[0]) {
      var n := WordRun(a);
      assert forall i :: 0 <= i < n ==> (a + b)[i] == a[i];
      if n < |a| {
        assert (a + b)[n] == a[n];
      } else if b != [] {
        assert (a + b)[n] == b[0];
      }
    }
  }
}
