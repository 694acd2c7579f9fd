/** Keyword highlighting: for each keyword, longest first, every whole-word
    occurrence (ignoring case) is wrapped in `<mark>…</mark>` and keeps the
    case it had in the text. */
module Highlighter {
  import opened Text
  import opened Keywords

  const Open: string := "<mark>"
  const Close: string := "</mark>"

  /** There is a `\b` between a character that is a word character exactly
      when `before` holds, and the start of `rest`. */
  predicate AtBoundary(before: bool, rest: string) {
    before != (rest != [] && IsWordChar(rest[0]))
  }

  /** Whether the character before the end of `a` is a word character, when
      the character before `a` is one exactly when `before` holds. */
  function After(before: bool, a: string): bool {
    if a == [] then before else IsWordChar(a[|a| - 1])
  }

  /** The escaped pattern `\b(w)\b`, ignoring case, matches at the front of `s`. */
  predicate MatchesAt(before: bool, s: string, w: string) {
    |w| <= |s|
    && (forall i :: 0 <= i < |w| ==> LowerChar(s[i]) == LowerChar(w[i]))
    && AtBoundary(before, s)
    && (if w == [] then before else IsWordChar(s[|w| - 1])) != (|w| < |s| && IsWordChar(s[|w|]))
  }

  /** One `re.sub` with replacement `<mark>\1</mark>`, scanning `s` left to
      right. An empty match inserts the marks and moves on by one character. */
  function Substitute(before: bool, s: string, w: string): (r: string)
    ensures |r| >= |s|
    ensures |s| < |w| ==> r == s
    decreases |s|
  {
    if MatchesAt(before, s, w) then
      if w == [] then
        Open + Close + (if s == [] then [] else [s[0]] + Substitute(IsWordChar(s[0]), s[1..], w))
      else
        Open + s[..|w|] + Close + Substitute(IsWordChar(s[|w| - 1]), s[|w|..], w)
    else if s == [] then []
    else
      var rest := Substitute(IsWordChar(s[0]), s[1..], w);
      assert |s| < |w| ==> [s[0]] + rest == s;
      [s[0]] + rest
  }

  /** The loop of `highlight_keywords` run over the keywords in `order`. */
  function SubstituteAll(text: string, order: seq<string>): (r: string)
    ensures |r| >= |text|
    ensures (forall i :: 0 <= i < |order| ==> |text| < |order[i]|) ==> r == text
  {
    if order == [] then text
    else Substitute(false, SubstituteAll(text, order[..|order| - 1]), order[|order| - 1])
  }

  /** `order` lists every keyword exactly once, longest first. */
  predicate LongestFirst(order: seq<string>, keywords: set<string>) {
    (forall i :: 0 <= i < |order| ==> order[i] in keywords)
    && (forall w :: w in keywords ==> w in order)
    && (forall i, j :: 0 <= i < j < |order| ==> order[i] != order[j] && |order[i]| >= |order[j]|)
  }

  predicate AllKeywords(keywords: set<string>) {
    forall w :: w in keywords ==> IsKeyword(w)
  }

  // ----- The highlighted text, token by token -----

  /** A piece of highlighted text: as it was, or wrapped in marks. */
  datatype Segment = Plain(text: string) | Marked(text: string)

  function Show(g: Segment): string {
    match g
    case Plain(t) => t
    case Marked(t) => Open + t + Close
  }

  /** The highlighted text: each piece as it is shown. It is never shorter
      than the text it came from, and equal to it when nothing is marked. */
  function Render(segs: seq<Segment>): (r: string)
    ensures |r| >= |Erase(segs)|
    ensures (forall i :: 0 <= i < |segs| ==> segs[i].Plain?) ==> r == Erase(segs)
  {
    if segs == [] then [] else Show(segs[0]) + Render(segs[1..])
  }

  /** The text with every mark that highlighting inserted taken out again. */
  function Erase(segs: seq<Segment>): string {
    if segs == [] then [] else segs[0].text + Erase(segs[1..])
  }

  /** Token `t` gets marked: it is a word whose lower-case form is a keyword. */
  predicate Marks(keywords: set<string>, t: string) {
    t != [] && IsWordChar(t[0]) && Lower(t) in keywords
  }

  function SegmentOf(keywords: set<string>, t: string): Segment {
    if Marks(keywords, t) then Marked(t) else Plain(t)
  }

  /** The text cut into tokens, each marked exactly when it is a whole word
      whose lower-case form is in `keywords`. */
  function Segments(s: string, keywords: set<string>): (r: seq<Segment>)
    ensures Erase(r) == s
    ensures forall g :: g in r && g.Marked? ==> IsWordRun(g.text) && Lower(g.text) in keywords
    decreases |s|
  {
    if s == [] then []
    else
      var n := TokenLen(s);
      var g, rest := SegmentOf(keywords, s[..n]), Segments(s[n..], keywords);
      SegmentOfToken(s, keywords);
      EraseCons(g, rest);
      [g] + rest
  }

  /** The piece made of the first token holds that token, and is marked
      only when the token is a word whose lower-case form is a keyword. */
  lemma SegmentOfToken(s: string, keywords: set<string>)
    requires s != []
    ensures SegmentOf(keywords, s[..TokenLen(s)]).text + s[TokenLen(s)..] == s
    ensures SegmentOf(keywords, s[..TokenLen(s)]).Marked? ==>
      IsWordRun(s[..TokenLen(s)]) && Lower(s[..TokenLen(s)]) in keywords
  {
    var n := TokenLen(s);
    assert s[..n][0] == s[0];
    assert s[..n] + s[n..] == s;
  }

  lemma EraseCons(g: Segment, rest: seq<Segment>)
    ensures Erase([g] + rest) == g.text + Erase(rest)
    ensures forall h :: h in [g] + rest <==> h == g || h in rest
  {
    assert ([g] + rest)[0] == g && ([g] + rest)[1..] == rest;
  }

  /** The text with every keyword word marked. */
  function Highlighted(s: string, keywords: set<string>): (r: string)
    ensures |r| >= |s|
    ensures keywords == {} ==> r == s
  {
    var segs := Segments(s, keywords);
    assert forall i :: 0 <= i < |segs| ==> segs[i] in segs;
    Render(segs)
  }

  // ----- `highlight_keywords` -----

  /** `highlight_keywords`: substitute each keyword in turn, longest first
      (ties in any order). For extracted keywords the outcome does not depend
      on the order: it is the text with every keyword word marked. */
  method Highlight(text: string, keywords: set<string>) returns (r: string, ghost order: seq<string>)
    ensures LongestFirst(order, keywords)
    ensures r == SubstituteAll(text, order)
    ensures keywords == {} ==> r == text
    ensures AllKeywords(keywords) ==> r == Highlighted(text, keywords)
  {
    r, order := text, [];
    var pending := keywords;
    assert keywords - pending == {};
    while pending != {}
      invariant OrderSoFar(order, pending, keywords)
      invariant r == SubstituteAll(text, order)
      invariant AllKeywords(keywords) ==> r == Highlighted(text, keywords - pending)
      decreases pending
    {
      LongestExists(pending);
      var w :| w in pending && forall v :: v in pending ==> |v| <= |w|;
      if AllKeywords(keywords) {
        HighlightStep(text, keywords, pending, w);
      }
      OrderSoFarStep(order, pending, keywords, w);
      SubstituteAllSnoc(text, order, w);
      r := Substitute(false, r, w);
      order := order + [w];
      pending := pending - {w};
    }
    assert keywords - pending == keywords;
    OrderSoFarDone(order, keywords);
  }

  /** The loop has taken the keywords of `order` so far, longest first, and
      every keyword still `pending` is no longer than any of them. */
  predicate OrderSoFar(order: seq<string>, pending: set<string>, keywords: set<string>) {
    pending <= keywords
    && (forall i :: 0 <= i < |order| ==> order[i] in keywords && order[i] !in pending)
    && (forall w :: w in keywords ==> w in pending || w in order)
    && (forall i, j :: 0 <= i < j < |order| ==> order[i] != order[j] && |order[i]| >= |order[j]|)
    && (forall i, v :: 0 <= i < |order| && v in pending ==> |v| <= |order[i]|)
  }

  lemma OrderSoFarStep(order: seq<string>, pending: set<string>, keywords: set<string>, w: string)
    requires OrderSoFar(order, pending, keywords)
    requires w in pending && forall v :: v in pending ==> |v| <= |w|
    ensures OrderSoFar(order + [w], pending - {w}, keywords)
  {
  }

  lemma OrderSoFarDone(order: seq<string>, keywords: set<string>)
    requires OrderSoFar(order, {}, keywords)
    ensures LongestFirst(order, keywords)
  {
  }

  lemma SubstituteAllSnoc(text: string, order: seq<string>, w: string)
    ensures SubstituteAll(text, order + [w]) == Substitute(false, SubstituteAll(text, order), w)
  {
    assert (order + [w])[..|order|] == order;
  }

  /** One pass of the loop, for keywords: the text highlighted for the keywords
      done so far becomes the text highlighted for those and `w`. */
  lemma HighlightStep(text: string, keywords: set<string>, pending: set<string>, w: string)
    requires AllKeywords(keywords) && pending <= keywords && w in pending
    ensures Substitute(false, Highlighted(text, keywords - pending), w)
         == Highlighted(text, keywords - (pending - {w}))
  {
    SubstituteStep(false, text, keywords - pending, w);
    assert keywords - (pending - {w}) == (keywords - pending) + {w};
  }

  /** A non-empty finite set of strings has a longest element. */
  lemma LongestExists(s: set<string>)
    requires s != {}
    ensures exists w :: w in s && forall v :: v in s ==> |v| <= |w|
  {
    var x :| x in s;
    if s != {x} {
      LongestExists(s - {x});
      var y :| y in s - {x} && forall v :: v in s - {x} ==> |v| <= |y|;
      if |x| <= |y| {
        assert forall v :: v in s ==> |v| <= |y|;
      } else {
        assert forall v :: v in s ==> |v| <= |x|;
      }
    }
  }

  // ----- Properties of one substitution -----

  lemma LowerKeyword(w: string)
    requires IsKeyword(w)
    ensures Lower(w) == w
  {
    assert forall i :: 0 <= i < |w| ==> Lower(w)[i] == w[i];
  }

  /** Inside a word (after a word character) no match can start. */
  lemma {:induction false} InteriorUnchanged(u: string, w: string)
    requires forall i :: 0 <= i < |u| ==> IsWordChar(u[i])
    requires w != []
    ensures Substitute(true, u, w) == u
    decreases |u|
  {
    if u != [] {
      InteriorUnchanged(u[1..], w);
    }
  }

  /** On one whole word, the substitution marks it exactly when the word is
      the keyword up to case. */
  lemma WordSubstitute(t: string, w: string)
    requires IsWordRun(t) && IsKeyword(w)
    ensures Substitute(false, t, w) == if Lower(t) == w then Open + t + Close else t
  {
    WordMatch(t, w);
    if MatchesAt(false, t, w) {
      WordAtMatch(t, w);
    } else {
      WordNoMatch(t, w);
    }
  }

  lemma WordAtMatch(t: string, w: string)
    requires IsWordRun(t) && IsKeyword(w) && MatchesAt(false, t, w) && |t| == |w|
    ensures Substitute(false, t, w) == Open + t + Close
  {
    SubstituteAtMatch(false, t, w);
    assert t[..|w|] == t;
    var rest := Substitute(IsWordChar(t[|w| - 1]), t[|w|..], w);
    assert t[|w|..] == [];
    assert rest == [];
    assert Open + t + Close + [] == Open + t + Close;
  }

  lemma WordNoMatch(t: string, w: string)
    requires IsWordRun(t) && IsKeyword(w) && !MatchesAt(false, t, w)
    ensures Substitute(false, t, w) == t
  {
    SubstituteNoMatch(false, t, w);
    InteriorUnchanged(t[1..], w);
    assert [t[0]] + t[1..] == t;
  }

  /** A whole word matches the keyword exactly when it is the keyword up to case. */
  lemma WordMatch(t: string, w: string)
    requires IsWordRun(t) && IsKeyword(w)
    ensures MatchesAt(false, t, w) <==> Lower(t) == w
  {
    LowerKeyword(w);
    var m := |w|;
    if MatchesAt(false, t, w) {
      assert IsWordChar(t[m - 1]);
      assert m == |t|;
      assert forall i :: 0 <= i < m ==> Lower(t)[i] == w[i];
    }
    if Lower(t) == w {
      assert forall i :: 0 <= i < m ==> LowerChar(t[i]) == LowerChar(w[i]);
    }
  }

  /** Whether the keyword matches at the front of `a + b` is decided by `a`
      alone when the two meet at a token boundary. */
  lemma MatchSplit(before: bool, a: string, b: string, w: string)
    requires a != [] && IsKeyword(w) && Joinable(a, b)
    ensures MatchesAt(before, a + b, w) == MatchesAt(before, a, w)
  {
    var s, m := a + b, |w|;
    assert forall i :: 0 <= i < |a| ==> s[i] == a[i];
    if m == |a| && b != [] {
      assert s[m] == b[0];
    } else if m > |a| && m <= |s| {
      assert s[|a|] == b[0];
    }
  }

  /** Unfolds the substitution at a match of a non-empty keyword. */
  lemma SubstituteAtMatch(before: bool, s: string, w: string)
    requires w != [] && MatchesAt(before, s, w)
    ensures Substitute(before, s, w) == Open + s[..|w|] + Close + Substitute(IsWordChar(s[|w| - 1]), s[|w|..], w)
  {
  }

  /** Unfolds the substitution where no match starts. */
  lemma SubstituteNoMatch(before: bool, s: string, w: string)
    requires s != [] && !MatchesAt(before, s, w)
    ensures Substitute(before, s, w) == [s[0]] + Substitute(IsWordChar(s[0]), s[1..], w)
  {
  }

  lemma AfterSuffix(before: bool, a: string, b: string, k: nat)
    requires 0 < k <= |a| && Joinable(a, b)
    ensures After(IsWordChar(a[k - 1]), a[k..]) == After(before, a)
    ensures Joinable(a[k..], b)
  {
    if k < |a| {
      assert a[k..][|a| - k - 1] == a[|a| - 1];
    }
  }

  /** The substitution distributes over a concatenation whose parts meet at
      a token boundary. */
  lemma {:induction false} SubstituteSplit(before: bool, a: string, b: string, w: string)
    requires IsKeyword(w) && Joinable(a, b)
    ensures Substitute(before, a + b, w) == Substitute(before, a, w) + Substitute(After(before, a), b, w)
    decreases |a|, 1
  {
    if a == [] {
      assert a + b == b;
      assert Substitute(before, a, w) == [];
    } else {
      MatchSplit(before, a, b, w);
      if MatchesAt(before, a, w) {
        SubstituteSplitAtMatch(before, a, b, w);
      } else {
        SubstituteSplitNoMatch(before, a, b, w);
      }
    }
  }

  lemma {:induction false} SubstituteSplitAtMatch(before: bool, a: string, b: string, w: string)
    requires IsKeyword(w) && Joinable(a, b) && a != []
    requires MatchesAt(before, a, w) && MatchesAt(before, a + b, w)
    ensures Substitute(before, a + b, w) == Substitute(before, a, w) + Substitute(After(before, a), b, w)
    decreases |a|, 0
  {
    var m := |w|;
    var head := Open + a[..m] + Close;
    ConcatAtMatch(before, a, b, w);
    SubstituteAtMatch(before, a, w);
    AfterSuffix(before, a, b, m);
    SubstituteSplit(IsWordChar(a[m - 1]), a[m..], b, w);
    var x, y := Substitute(IsWordChar(a[m - 1]), a[m..], w), Substitute(After(before, a), b, w);
    ConcatAssoc(head, x, y);
  }

  lemma ConcatAssoc<T>(x: seq<T>, y: seq<T>, z: seq<T>)
    ensures x + (y + z) == (x + y) + z
  {
  }

  /** Unfolds the substitution on `a + b` at a match inside `a`. */
  lemma ConcatAtMatch(before: bool, a: string, b: string, w: string)
    requires w != [] && |w| <= |a| && MatchesAt(before, a + b, w)
    ensures Substitute(before, a + b, w)
         == Open + a[..|w|] + Close + Substitute(IsWordChar(a[|w| - 1]), a[|w|..] + b, w)
  {
    var s, m := a + b, |w|;
    assert s[..m] == a[..m];
    assert s[m..] == a[m..] + b;
    assert s[m - 1] == a[m - 1];
    SubstituteAtMatch(before, s, w);
  }

  lemma {:induction false} SubstituteSplitNoMatch(before: bool, a: string, b: string, w: string)
    requires IsKeyword(w) && Joinable(a, b) && a != []
    requires !MatchesAt(before, a, w) && !MatchesAt(before, a + b, w)
    ensures Substitute(before, a + b, w) == Substitute(before, a, w) + Substitute(After(before, a), b, w)
    decreases |a|, 0
  {
    var s := a + b;
    assert s[0] == a[0];
    assert s[1..] == a[1..] + b;
    SubstituteNoMatch(before, s, w);
    SubstituteNoMatch(before, a, w);
    AfterSuffix(before, a, b, 1);
    SubstituteSplit(IsWordChar(a[0]), a[1..], b, w);
    var x, y := Substitute(IsWordChar(a[0]), a[1..], w), Substitute(After(before, a), b, w);
    ConcatAssoc([a[0]], x, y);
  }

  /** The opening mark never matches a keyword. */
  lemma OpenUnchanged(before: bool, w: string)
    requires IsKeyword(w)
    ensures Substitute(before, Open, w) == Open
  {
    var mark := "mark";
    SubstituteSplit(false, mark, ">", w);
    assert Open == "<" + (mark + ">");
    SubstituteSplit(before, "<", mark + ">", w);
  }

  /** The closing mark never matches a keyword. */
  lemma CloseUnchanged(before: bool, w: string)
    requires IsKeyword(w)
    ensures Substitute(before, Close, w) == Close
  {
    var mark := "mark";
    SubstituteSplit(false, mark, ">", w);
    SubstituteSplit(false, "/", mark + ">", w);
    assert Close == "<" + ("/" + (mark + ">"));
    SubstituteSplit(before, "<", "/" + (mark + ">"), w);
  }

  /** A word already marked for another keyword stays as it is, marks included. */
  lemma MarkedWordUnchanged(before: bool, t: string, w: string)
    requires IsKeyword(w) && IsWordRun(t) && Lower(t) != w
    ensures Substitute(before, Open + t + Close, w) == Open + t + Close
  {
    WordCloseUnchanged(t, w);
    OpenUnchanged(before, w);
    MarkFacts();
    JoinUnchanged(before, Open, t + Close, w);
    ConcatAssoc(Open, t, Close);
  }

  lemma WordCloseUnchanged(t: string, w: string)
    requires IsKeyword(w) && IsWordRun(t) && Lower(t) != w
    ensures Substitute(false, t + Close, w) == t + Close
  {
    CloseUnchanged(true, w);
    WordSubstitute(t, w);
    MarkFacts();
    assert After(false, t);
    JoinUnchanged(false, t, Close, w);
  }

  /** Both marks start and end with a character that is not a word character. */
  lemma MarkFacts()
    ensures Open != [] && !IsWordChar(Open[0]) && !IsWordChar(Open[|Open| - 1])
    ensures Close != [] && !IsWordChar(Close[0]) && !IsWordChar(Close[|Close| - 1])
  {
  }

  /** Two texts that a substitution leaves alone, meeting at a token
      boundary, are left alone together. */
  lemma JoinUnchanged(before: bool, a: string, b: string, w: string)
    requires IsKeyword(w) && Joinable(a, b)
    requires Substitute(before, a, w) == a && Substitute(After(before, a), b, w) == b
    ensures Substitute(before, a + b, w) == a + b
  {
    SubstituteSplit(before, a, b, w);
  }

  /** One token, highlighted for `done`, then substituted for `w`, is that
      token highlighted for `done` and `w`. */
  lemma TokenStep(before: bool, t: string, done: set<string>, w: string)
    requires IsKeyword(w) && w !in done
    requires t != []
    requires IsWordChar(t[0]) ==> IsWordRun(t) && !before
    requires !IsWordChar(t[0]) ==> |t| == 1
    ensures Substitute(before, Show(SegmentOf(done, t)), w) == Show(SegmentOf(done + {w}, t))
  {
    if !IsWordChar(t[0]) {
    } else if Marks(done, t) {
      MarkedWordUnchanged(before, t, w);
    } else {
      WordSubstitute(t, w);
    }
  }

  /** Unfolds the first token of the highlighted text. */
  lemma HighlightedCons(s: string, keywords: set<string>)
    requires s != []
    ensures Highlighted(s, keywords)
         == Show(SegmentOf(keywords, s[..TokenLen(s)])) + Highlighted(s[TokenLen(s)..], keywords)
  {
    var g := SegmentOf(keywords, s[..TokenLen(s)]);
    var rest := Segments(s[TokenLen(s)..], keywords);
    assert ([g] + rest)[1..] == rest;
  }

  /** The highlighted text starts with a word character only where the text does. */
  lemma HighlightedHead(s: string, keywords: set<string>)
    requires s != []
    ensures Highlighted(s, keywords) != []
    ensures IsWordChar(Highlighted(s, keywords)[0]) ==> IsWordChar(s[0])
  {
    HighlightedCons(s, keywords);
    assert s[..TokenLen(s)][0] == s[0];
  }

  /** Substituting one more keyword into text highlighted for `done` gives the
      text highlighted for `done` and that keyword. */
  lemma {:induction false} SubstituteStep(before: bool, s: string, done: set<string>, w: string)
    requires IsKeyword(w) && w !in done
    requires !(before && s != [] && IsWordChar(s[0]))
    ensures Substitute(before, Highlighted(s, done), w) == Highlighted(s, done + {w})
    decreases |s|
  {
    if s != [] {
      var n := TokenLen(s);
      var t, rest := s[..n], s[n..];
      var shown := Show(SegmentOf(done, t));
      HighlightedCons(s, done);
      HighlightedCons(s, done + {w});
      assert t[0] == s[0];
      assert IsWordChar(t[0]) ==> IsWordChar(t[n - 1]);
      if rest != [] {
        HighlightedHead(rest, done);
        assert rest[0] == s[n];
      }
      SubstituteSplit(before, shown, Highlighted(rest, done), w);
      TokenStep(before, t, done, w);
      SubstituteStep(After(before, shown), rest, done, w);
    }
  }

  // ----- Properties of the highlighted text -----

  lemma {:induction false} RenderConcat(x: seq<Segment>, y: seq<Segment>)
    ensures Render(x + y) == Render(x) + Render(y)
    decreases |x|
  {
    if x != [] {
      assert (x + y)[0] == x[0];
      assert (x + y)[1..] == x[1..] + y;
      RenderConcat(x[1..], y);
      ConcatAssoc(Show(x[0]), Render(x[1..]), Render(y));
    } else {
      assert x + y == y;
    }
  }

  /** Tokenising a concatenation whose parts meet at a token boundary
      tokenises each part on its own. */
  lemma {:induction false} SegmentsConcat(a: string, b: string, keywords: set<string>)
    requires Joinable(a, b)
    ensures Segments(a + b, keywords) == Segments(a, keywords) + Segments(b, keywords)
    decreases |a|
  {
    if a == [] {
      assert a + b == b;
    } else {
      TokenLenConcat(a, b);
      var n := TokenLen(a);
      var ab := a + b;
      assert ab[..n] == a[..n];
      assert ab[n..] == a[n..] + b;
      AfterSuffix(false, a, b, n);
      SegmentsConcat(a[n..], b, keywords);
      SegmentsUnfold(ab, keywords);
      SegmentsUnfold(a, keywords);
      ConcatAssoc([SegmentOf(keywords, a[..n])], Segments(a[n..], keywords), Segments(b, keywords));
    }
  }

  lemma SegmentsUnfold(s: string, keywords: set<string>)
    requires s != []
    ensures Segments(s, keywords) == [SegmentOf(keywords, s[..TokenLen(s)])] + Segments(s[TokenLen(s)..], keywords)
  {
  }

  /** `\b(k)\b`, ignoring case, matches the text `s` at `i`. */
  predicate WholeWordAt(s: string, k: string, i: int) {
    0 <= i && i + |k| <= |s|
    && (forall p :: 0 <= p < |k| ==> LowerChar(s[i + p]) == LowerChar(k[p]))
    && (i == 0 || !IsWordChar(s[i - 1]))
    && (i + |k| == |s| || !IsWordChar(s[i + |k|]))
  }

  /** A text that is one word whose lower-case form is a keyword is one marked segment. */
  lemma SegmentsOfKeywordWord(t: string, keywords: set<string>)
    requires IsWordRun(t) && Lower(t) in keywords
    ensures Segments(t, keywords) == [Marked(t)]
  {
    assert TokenLen(t) == |t|;
    assert t[..|t|] == t;
    assert t[|t|..] == [];
  }

  /** The text of an occurrence of a keyword is a word whose lower-case form is the keyword. */
  lemma OccurrenceIsWord(s: string, k: string, i: int)
    requires IsKeyword(k) && WholeWordAt(s, k, i)
    ensures IsWordRun(s[i..i + |k|]) && Lower(s[i..i + |k|]) == k
  {
    LowerKeyword(k);
    var mid := s[i..i + |k|];
    forall p | 0 <= p < |k|
      ensures IsLetter(mid[p]) && Lower(mid)[p] == k[p]
    {
      assert mid[p] == s[i + p];
      assert LowerChar(k[p]) == k[p];
    }
  }

  /** Every whole-word occurrence of a keyword, in whatever case, is wrapped
      once, as it is written in the text. */
  lemma HighlightedWrapsOccurrence(s: string, keywords: set<string>, k: string, i: int)
    requires IsKeyword(k) && k in keywords && WholeWordAt(s, k, i)
    ensures Highlighted(s, keywords)
         == Highlighted(s[..i], keywords) + (Open + s[i..i + |k|] + Close) + Highlighted(s[i + |k|..], keywords)
  {
    var j := i + |k|;
    var pre, mid, post := s[..i], s[i..j], s[j..];
    OccurrenceIsWord(s, k, i);
    SegmentsAroundOccurrence(s, keywords, i, j);
    var sp, sq := Segments(pre, keywords), Segments(post, keywords);
    var x, wrapped, y := Render(sp), Open + mid + Close, Render(sq);
    RenderConcat(sp, [Marked(mid)] + sq);
    RenderConcat([Marked(mid)], sq);
    RenderSingle(Marked(mid));
    ConcatAssoc(x, wrapped, y);
    calc {
      Highlighted(s, keywords);
      Render(sp + ([Marked(mid)] + sq));
      x + Render([Marked(mid)] + sq);
      x + (wrapped + y);
      x + wrapped + y;
    }
  }

  lemma RenderSingle(g: Segment)
    ensures Render([g]) == Show(g)
  {
    assert [g][1..] == [];
    assert Show(g) + [] == Show(g);
  }

  /** Cutting the text around a marked word. */
  lemma SegmentsAroundOccurrence(s: string, keywords: set<string>, i: int, j: int)
    requires 0 <= i < j <= |s| && IsWordRun(s[i..j]) && Lower(s[i..j]) in keywords
    requires i == 0 || !IsWordChar(s[i - 1])
    requires j == |s| || !IsWordChar(s[j])
    ensures Segments(s, keywords) == Segments(s[..i], keywords) + ([Marked(s[i..j])] + Segments(s[j..], keywords))
  {
    var pre, mid, post := s[..i], s[i..j], s[j..];
    SegmentsOfKeywordWord(mid, keywords);
    if j < |s| {
      assert post[0] == s[j];
    }
    SegmentsConcat(mid, post, keywords);
    if i > 0 {
      assert (mid + post)[0] == s[i];
    }
    SegmentsConcat(pre, mid + post, keywords);
    SplitThree(s, i, j);
  }

  lemma SplitThree(s: string, i: int, j: int)
    requires 0 <= i <= j <= |s|
    ensures s == s[..i] + (s[i..j] + s[j..])
  {
    assert s[i..] == s[i..j] + s[j..];
    assert s == s[..i] + s[i..];
  }
}
