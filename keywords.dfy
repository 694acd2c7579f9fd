/** Keyword extraction: the distinct ASCII-letter words of at least five
    letters in the lower-cased text, as `\b[a-zA-Z]{5,}\b` finds them. */
module Keywords {
  import opened Text

  const MinKeywordLength: nat := 5

  /** What the extractor returns: at least five lower-case letters. */
  predicate IsKeyword(w: string) {
    |w| >= MinKeywordLength && forall i :: 0 <= i < |w| ==> IsLower(w[i])
  }

  /** A token that `[a-zA-Z]{5,}` matches in full. */
  predicate IsLetterToken(t: string) {
    |t| >= MinKeywordLength && forall i :: 0 <= i < |t| ==> IsLetter(t[i])
  }

  /** `s[i..j]` is a match of `\b[a-zA-Z]{5,}\b`: five or more letters with no
      word character directly before or after them. */
  predicate MatchSpan(s: string, i: int, j: int) {
    0 <= i && i + MinKeywordLength <= j <= |s|
    && (forall k :: i <= k < j ==> IsLetter(s[k]))
    && (i == 0 || !IsWordChar(s[i - 1]))
    && (j == |s| || !IsWordChar(s[j]))
  }

  /** The set of letter tokens of `s`, scanning it token by token. */
  function KeywordsOf(s: string): (r: set<string>)
    ensures forall w :: w in r ==> IsLetterToken(w)
    ensures (forall i :: 0 <= i < |s| ==> !IsUpper(s[i])) ==> forall w :: w in r ==> IsKeyword(w)
    decreases |s|
  {
    if s == [] then {}
    else
      var n := TokenLen(s);
      assert forall i :: 0 <= i < n ==> s[..n][i] == s[i];
      assert forall i :: 0 <= i < |s| - n ==> s[n..][i] == s[n + i];
      (if IsLetterToken(s[..n]) then {s[..n]} else {}) + KeywordsOf(s[n..])
  }

  /** `extract_keywords`: lower-case the text, then collect its letter tokens.
      Everything it returns is a keyword. */
  function ExtractKeywords(text: string): (r: set<string>)
    ensures forall w :: w in r ==> IsKeyword(w)
  {
    LowerIsLower(text);
    KeywordsOf(Lower(text))
  }

  /** A match of the pattern in the rest of the text after the first token
      is a match in the whole text, at the shifted position. */
  lemma ShiftSpan(s: string, n: nat, i: int, j: int)
    requires s != [] && n == TokenLen(s)
    requires MatchSpan(s[n..], i, j)
    ensures MatchSpan(s, i + n, j + n) && s[i + n..j + n] == s[n..][i..j]
  {
    var rest := s[n..];
    assert forall k :: i <= k < j ==> rest[k] == s[k + n];
    if i == 0 {
      assert IsLetter(rest[0]);
      assert s[n] == rest[0];
    } else {
      assert rest[i - 1] == s[i + n - 1];
    }
    if j < |rest| {
      assert rest[j] == s[j + n];
    }
  }

  /** A match starting after the first token of `s` is a match in the rest. */
  lemma UnshiftSpan(s: string, n: nat, i: int, j: int)
    requires s != [] && n == TokenLen(s)
    requires MatchSpan(s, i, j) && i >= n
    ensures MatchSpan(s[n..], i - n, j - n) && s[n..][i - n..j - n] == s[i..j]
  {
    var rest := s[n..];
    assert forall k :: i - n <= k < j - n ==> rest[k] == s[k + n];
    if i > n {
      assert rest[i - n - 1] == s[i - 1];
    }
    if j < |s| {
      assert rest[j - n] == s[j];
    }
  }

  /** A match that starts inside the first token is the first token itself. */
  lemma FirstTokenSpan(s: string, n: nat, i: int, j: int)
    requires s != [] && n == TokenLen(s)
    requires MatchSpan(s, i, j) && i < n
    ensures i == 0 && j == n && IsLetterToken(s[..n])
  {
    assert IsLetter(s[i]);
    assert forall k :: 0 <= k < n ==> s[..n][k] == s[k];
    assert forall k :: 0 <= k < n ==> IsWordChar(s[k]);
  }

  /** The scanner finds exactly the matches of `\b[a-zA-Z]{5,}\b`. */
  lemma {:induction false} KeywordsOfSpec(s: string, w: string)
    ensures w in KeywordsOf(s) <==> exists i, j :: MatchSpan(s, i, j) && s[i..j] == w
    decreases |s|
  {
    if s != [] {
      var n := TokenLen(s);
      var rest := s[n..];
      KeywordsOfSpec(rest, w);
      if w in KeywordsOf(s) {
        if IsLetterToken(s[..n]) && w == s[..n] {
          assert forall k :: 0 <= k < n ==> s[..n][k] == s[k];
          assert MatchSpan(s, 0, n);
        } else {
          var i, j :| MatchSpan(rest, i, j) && rest[i..j] == w;
          ShiftSpan(s, n, i, j);
        }
      }
      if exists i, j :: MatchSpan(s, i, j) && s[i..j] == w {
        var i, j :| MatchSpan(s, i, j) && s[i..j] == w;
        if i < n {
          FirstTokenSpan(s, n, i, j);
        } else {
          UnshiftSpan(s, n, i, j);
        }
      }
    }
  }

  /** Every extracted keyword is a lower-case letter word of at least five
      letters that the pattern matches in the lower-cased text. */
  lemma ExtractKeywordsSound(text: string, w: string)
    requires w in ExtractKeywords(text)
    ensures IsKeyword(w)
    ensures exists i, j :: MatchSpan(Lower(text), i, j) && Lower(text)[i..j] == w
  {
    var s := Lower(text);
    KeywordsOfSpec(s, w);
  }

  /** Every match of the pattern in the lower-cased text is extracted. */
  lemma ExtractKeywordsComplete(text: string, i: int, j: int)
    requires MatchSpan(Lower(text), i, j)
    ensures Lower(text)[i..j] in ExtractKeywords(text)
  {
    KeywordsOfSpec(Lower(text), Lower(text)[i..j]);
  }

  /** A text in which the pattern matches nowhere yields no keyword. */
  lemma ExtractKeywordsEmpty(text: string)
    requires forall i, j :: !MatchSpan(Lower(text), i, j)
    ensures ExtractKeywords(text) == {}
  {
    if w :| w in ExtractKeywords(text) {
      ExtractKeywordsSound(text, w);
    }
  }
}
