/**
 * `review_to_words`: the fixed normalisation pipeline applied to every
 * review, both when the data set is loaded and to the user's input.
 *
 * The three library resources it uses are parameters:
 *   strip      -- `BeautifulSoup(raw, 'html.parser').get_text()`,
 *   stop       -- `set(stopwords.words('english'))`,
 *   lemmatize  -- `WordNetLemmatizer().lemmatize`.
 */
module Normalizer {
  import opened Text

  /**
   * Steps 2 to 4: delete `string.punctuation`, lower-case, and replace every
   * character outside `[a-zA-Z]` by a space.
   */
  function Scrub(s: string): (r: string)
    ensures |r| <= |s|
    ensures forall i :: 0 <= i < |r| ==> IsLowerLetter(r[i]) || r[i] == ' '
  {
    ReplaceNonLetters(Lower(DeletePunctuation(s)))
  }

  /** Step 5: the whitespace tokens of the scrubbed text. */
  function Tokens(text: string): (r: seq<string>)
    ensures forall k :: 0 <= k < |r| ==> IsLowerWord(r[k])
  {
    var s := Scrub(text);
    var r := Split(s);
    assert forall k, i :: 0 <= k < |r| && 0 <= i < |r[k]| ==> r[k][i] in s;
    r
  }

  /** Step 6: `[w for w in words if not w in stop]`. */
  function RemoveStopwords(ws: seq<string>, stop: set<string>): (r: seq<string>)
    ensures |r| <= |ws|
    ensures forall k :: 0 <= k < |r| ==> r[k] in ws && r[k] !in stop
    ensures forall w :: w in ws && w !in stop ==> w in r
  {
    if ws == [] then []
    else if ws[0] in stop then RemoveStopwords(ws[1..], stop)
    else [ws[0]] + RemoveStopwords(ws[1..], stop)
  }

  /** Step 7: `[lemmatizer.lemmatize(w) for w in meaningful_words]`. */
  function Lemmatize(ws: seq<string>, lemmatize: string -> string): (r: seq<string>)
    ensures |r| == |ws|
    ensures forall k :: 0 <= k < |ws| ==> r[k] == lemmatize(ws[k])
  {
    seq(|ws|, k requires 0 <= k < |ws| => lemmatize(ws[k]))
  }

  /** The tokens that survive the stopword filter, before lemmatisation. */
  function KeptTokens(raw: string, strip: string -> string, stop: set<string>): seq<string>
  {
    RemoveStopwords(Tokens(strip(raw)), stop)
  }

  /** `review_to_words(raw_review)`; step 8 is the final `' '.join`. */
  function ReviewToWords(raw: string, strip: string -> string, stop: set<string>,
                         lemmatize: string -> string): string
  {
    Join(Lemmatize(KeptTokens(raw, strip, stop), lemmatize))
  }

  /**
   * The assumption made about the WordNet lemmatiser: a word of lower-case
   * ASCII letters is mapped to a word of lower-case ASCII letters.
   */
  ghost predicate KeepsLowerWords(lemmatize: string -> string)
  {
    forall w :: IsLowerWord(w) ==> IsLowerWord(lemmatize(w))
  }

  // ---------------------------------------------------------------------
  // Character steps

  lemma ScrubAppend(a: string, b: string)
    ensures Scrub(a + b) == Scrub(a) + Scrub(b)
  {
    DeletePunctuationAppend(a, b);
    LowerAppend(DeletePunctuation(a), DeletePunctuation(b));
    ReplaceNonLettersAppend(Lower(DeletePunctuation(a)), Lower(DeletePunctuation(b)));
  }

  /** A punctuation character is deleted outright: its neighbours join. */
  lemma PunctuationJoins(a: string, p: char, b: string)
    requires IsPunctuation(p)
    ensures Scrub(a + [p] + b) == Scrub(a) + Scrub(b)
  {
    ScrubAppend(a + [p], b);
    ScrubAppend(a, [p]);
    assert DeletePunctuation([p]) == [];
  }

  /**
   * A character that is neither punctuation nor an ASCII letter (a digit, a
   * space, a non-ASCII letter) becomes a space, so it separates tokens.
   */
  lemma OtherCharSeparates(a: string, c: char, b: string)
    requires !IsPunctuation(c) && !IsAsciiLetter(c)
    ensures Scrub(a + [c] + b) == Scrub(a) + " " + Scrub(b)
    ensures Tokens(a + [c] + b) == Tokens(a) + Tokens(b)
  {
    ScrubAppend(a + [c], b);
    ScrubAppend(a, [c]);
    assert DeletePunctuation([c]) == [c] by {
      assert [c][1..] == [];
    }
    assert Scrub([c]) == " ";
    SplitAtSpace(Scrub(a), Scrub(b));
  }

  lemma ApostropheIsDeleted()
    ensures Tokens("Don't") == ["dont"]
  {
    ScrubDont();
    SplitToken("dont");
  }

  lemma ScrubDont()
    ensures Scrub("Don't") == "dont"
  {
    assert "Don't" == "Don" + ['\''] + "t";
    PunctuationJoins("Don", '\'', "t");
    assert Scrub("Don") == "don" by { ScrubWord("Don"); }
    assert Scrub("t") == "t" by { ScrubWord("t"); }
  }

  lemma DigitSeparates()
    ensures Tokens("a2b") == ["a", "b"]
  {
    assert "a2b" == "a" + ['2'] + "b";
    OtherCharSeparates("a", '2', "b");
    TokensOfLowerWord("a");
    TokensOfLowerWord("b");
  }

  /** A lower-case word is its own single token. */
  lemma TokensOfLowerWord(w: string)
    requires IsLowerWord(w)
    ensures Tokens(w) == [w]
  {
    ScrubWord(w);
    LowerNoUpper(w);
    SplitToken(w);
  }

  /** Scrubbing a word of ASCII letters lower-cases it. */
  lemma ScrubWord(w: string)
    requires forall i :: 0 <= i < |w| ==> IsAsciiLetter(w[i])
    ensures Scrub(w) == Lower(w)
  {
    DeletePunctuationKeeps(w);
  }

  lemma {:induction false} DeletePunctuationKeeps(s: string)
    requires forall i :: 0 <= i < |s| ==> !IsPunctuation(s[i])
    ensures DeletePunctuation(s) == s
  {
    if s != [] {
      DeletePunctuationKeeps(s[1..]);
    }
  }

  /** Text that is already clean passes the character steps unchanged. */
  lemma ScrubClean(s: string)
    requires forall i :: 0 <= i < |s| ==> IsLowerLetter(s[i]) || s[i] == ' '
    ensures Scrub(s) == s
  {
    DeletePunctuationKeeps(s);
    LowerNoUpper(s);
  }

  // ---------------------------------------------------------------------
  // Word steps

  /** The stopword filter keeps the order of the tokens it keeps. */
  lemma {:induction false} RemoveStopwordsAppend(a: seq<string>, b: seq<string>, stop: set<string>)
    ensures RemoveStopwords(a + b, stop) == RemoveStopwords(a, stop) + RemoveStopwords(b, stop)
  {
    if a == [] {
      assert a + b == b;
    } else {
      assert (a + b)[1..] == a[1..] + b;
      RemoveStopwordsAppend(a[1..], b, stop);
    }
  }

  lemma {:induction false} RemoveStopwordsNone(ws: seq<string>, stop: set<string>)
    requires forall k :: 0 <= k < |ws| ==> ws[k] !in stop
    ensures RemoveStopwords(ws, stop) == ws
  {
    if ws != [] {
      RemoveStopwordsNone(ws[1..], stop);
    }
  }

  // ---------------------------------------------------------------------
  // Properties of review_to_words

  /**
   * The normalised review holds only lower-case ASCII letters and single
   * separating spaces, with no space at either end.
   */
  lemma ReviewIsCleanText(raw: string, strip: string -> string, stop: set<string>,
                          lemmatize: string -> string)
    requires KeepsLowerWords(lemmatize)
    ensures IsCleanText(ReviewToWords(raw, strip, stop, lemmatize))
  {
    var kept := KeptTokens(raw, strip, stop);
    assert forall k :: 0 <= k < |kept| ==> IsLowerWord(kept[k]);
    JoinLowerWords(Lemmatize(kept, lemmatize));
  }

  /**
   * The review has exactly one word per token that is not a stopword, in
   * order: word k is the lemma of the k-th surviving token. The stopword
   * test is made on the token, not on its lemma.
   */
  lemma ReviewWords(raw: string, strip: string -> string, stop: set<string>,
                    lemmatize: string -> string)
    requires KeepsLowerWords(lemmatize)
    ensures var words := Split(ReviewToWords(raw, strip, stop, lemmatize));
            var kept := KeptTokens(raw, strip, stop);
            && |words| == |kept|
            && (forall k :: 0 <= k < |kept| ==> kept[k] !in stop && words[k] == lemmatize(kept[k]))
            && (forall w :: w in Tokens(strip(raw)) && w !in stop ==> w in kept)
  {
    var kept := KeptTokens(raw, strip, stop);
    assert forall k :: 0 <= k < |kept| ==> IsLowerWord(kept[k]);
    var lemmas := Lemmatize(kept, lemmatize);
    assert forall k :: 0 <= k < |lemmas| ==> IsLowerWord(lemmas[k]);
    SplitJoin(lemmas);
  }

  /**
   * A review whose stripped text has no ASCII letter at all (only digits,
   * punctuation and whitespace, say) normalises to the empty string.
   */
  lemma NoLettersGivesEmpty(raw: string, strip: string -> string, stop: set<string>,
                            lemmatize: string -> string)
    requires forall i :: 0 <= i < |strip(raw)| ==> !IsAsciiLetter(strip(raw)[i])
    ensures ReviewToWords(raw, strip, stop, lemmatize) == ""
  {
    var t := strip(raw);
    var d := DeletePunctuation(t);
    assert forall i :: 0 <= i < |d| ==> !IsAsciiLetter(d[i]);
    var s := Scrub(t);
    assert forall i :: 0 <= i < |s| ==> s[i] == ' ';
    assert Tokens(t) == [];
  }

  /** The empty review normalises to the empty string. */
  lemma EmptyGivesEmpty(strip: string -> string, stop: set<string>, lemmatize: string -> string)
    requires strip("") == ""
    ensures ReviewToWords("", strip, stop, lemmatize) == ""
  {
    NoLettersGivesEmpty("", strip, stop, lemmatize);
  }

  /**
   * An output word can itself be a stopword: the filter runs before
   * lemmatisation, so a token that is not a stopword but whose lemma is one
   * reaches the output.
   */
  lemma StopwordMayReappear(strip: string -> string, lemmatize: string -> string)
    requires strip("doing") == "doing" && lemmatize("doing") == "do"
    ensures ReviewToWords("doing", strip, {"do"}, lemmatize) == "do"
  {
    var ws: seq<string> := ["doing"];
    assert Tokens(strip("doing")) == ws by {
      TokensOfLowerWord("doing");
    }
    assert RemoveStopwords(ws, {"do"}) == ws by {
      assert "doing" !in {"do"} by { assert |"doing"| != |"do"|; }
      assert ws[1..] == [];
    }
    assert Join(Lemmatize(ws, lemmatize)) == "do";
  }

  /**
   * Normalising an already normalised review changes nothing, provided the
   * stripper leaves plain text alone, no lemma is a stopword and the lemmatiser
   * is idempotent on its own results.
   */
  lemma ReviewToWordsIdempotent(raw: string, strip: string -> string, stop: set<string>,
                                lemmatize: string -> string)
    requires KeepsLowerWords(lemmatize)
    requires strip(ReviewToWords(raw, strip, stop, lemmatize)) == ReviewToWords(raw, strip, stop, lemmatize)
    requires forall w :: w in KeptTokens(raw, strip, stop) ==>
               lemmatize(w) !in stop && lemmatize(lemmatize(w)) == lemmatize(w)
    ensures var y := ReviewToWords(raw, strip, stop, lemmatize);
            ReviewToWords(y, strip, stop, lemmatize) == y
  {
    var kept := KeptTokens(raw, strip, stop);
    assert forall k :: 0 <= k < |kept| ==> IsLowerWord(kept[k]);
    var lemmas := Lemmatize(kept, lemmatize);
    assert forall k :: 0 <= k < |lemmas| ==> IsLowerWord(lemmas[k]);
    var y := Join(lemmas);
    JoinLowerWords(lemmas);
    ScrubClean(y);
    SplitJoin(lemmas);
    assert Tokens(strip(y)) == lemmas;
    assert forall k :: 0 <= k < |lemmas| ==> lemmas[k] !in stop by {
      forall k | 0 <= k < |lemmas| ensures lemmas[k] !in stop {
        assert kept[k] in kept;
      }
    }
    RemoveStopwordsNone(lemmas, stop);
    assert KeptTokens(y, strip, stop) == lemmas;
    assert Lemmatize(lemmas, lemmatize) == lemmas by {
      forall k | 0 <= k < |lemmas| ensures lemmatize(lemmas[k]) == lemmas[k] {
        assert kept[k] in kept;
      }
    }
  }
}
