/**
 * The Python string built-ins the notebook relies on, restricted to what the
 * core uses: `str.lower`, `str.translate` with a deletion table,
 * `re.sub('[^a-zA-Z]', ' ', ...)`, `str.split()`, `' '.join(...)` and the
 * substring operator `in`.
 */
module Text {

  predicate IsUpper(c: char) { 'A' <= c <= 'Z' }

  predicate IsLowerLetter(c: char) { 'a' <= c <= 'z' }

  /** The class `[a-zA-Z]` of the regular expression. */
  predicate IsAsciiLetter(c: char) { IsUpper(c) || IsLowerLetter(c) }

  /** Python's `string.punctuation`, written out. */
  const PythonPunctuation: string := "!\"#$%&'()*+,-./:;<=>?@[\\]^_`{|}~"

  /** Membership in `string.punctuation`, as the four ASCII ranges it covers. */
  predicate IsPunctuation(c: char)
  {
    ('!' <= c <= '/') || (':' <= c <= '@') || ('[' <= c <= '`') || ('{' <= c <= '~')
  }

  lemma PunctuationRangesArePythons(c: char)
    ensures IsPunctuation(c) <==> c in PythonPunctuation
  {
  }

  /** `str.lower` on one character, for the ASCII range. */
  function LowerChar(c: char): (r: char)
    ensures IsUpper(c) ==> IsLowerLetter(r) && r as int == c as int + 32
    ensures !IsUpper(c) ==> r == c
  {
    if IsUpper(c) then (c as int + 32) as char else c
  }

  /** `str.lower`. */
  function Lower(s: string): (r: string)
    ensures |r| == |s|
    ensures forall i :: 0 <= i < |s| ==> r[i] == LowerChar(s[i])
  {
    seq(|s|, i requires 0 <= i < |s| => LowerChar(s[i]))
  }

  lemma {:induction false} LowerAppend(a: string, b: string)
    ensures Lower(a + b) == Lower(a) + Lower(b)
  {
    assert forall i :: 0 <= i < |a + b| ==> Lower(a + b)[i] == (Lower(a) + Lower(b))[i];
  }

  /** Lower-casing changes nothing in a string without upper-case letters. */
  lemma LowerNoUpper(s: string)
    requires forall i :: 0 <= i < |s| ==> !IsUpper(s[i])
    ensures Lower(s) == s
  {
  }

  /** `s.translate(str.maketrans('', '', string.punctuation))`. */
  function DeletePunctuation(s: string): (r: string)
    ensures |r| <= |s|
    ensures forall i :: 0 <= i < |r| ==> !IsPunctuation(r[i]) && r[i] in s
  {
    if s == [] then []
    else if IsPunctuation(s[0]) then DeletePunctuation(s[1..])
    else [s[0]] + DeletePunctuation(s[1..])
  }

  lemma {:induction false} DeletePunctuationAppend(a: string, b: string)
    ensures DeletePunctuation(a + b) == DeletePunctuation(a) + DeletePunctuation(b)
  {
    if a != [] {
      assert (a + b)[1..] == a[1..] + b;
      DeletePunctuationAppend(a[1..], b);
    } else {
      assert a + b == b;
    }
  }

  /** `re.sub('[^a-zA-Z]', ' ', s)`. */
  function ReplaceNonLetters(s: string): (r: string)
    ensures |r| == |s|
    ensures forall i :: 0 <= i < |s| ==> r[i] == (if IsAsciiLetter(s[i]) then s[i] else ' ')
  {
    seq(|s|, i requires 0 <= i < |s| => if IsAsciiLetter(s[i]) then s[i] else ' ')
  }

  lemma {:induction false} ReplaceNonLettersAppend(a: string, b: string)
    ensures ReplaceNonLetters(a + b) == ReplaceNonLetters(a) + ReplaceNonLetters(b)
  {
    assert forall i :: 0 <= i < |a + b| ==>
      ReplaceNonLetters(a + b)[i] == (ReplaceNonLetters(a) + ReplaceNonLetters(b))[i];
  }

  /** A token of `str.split()`: non-empty and without a separator. */
  predicate IsToken(w: string)
  {
    |w| > 0 && forall i :: 0 <= i < |w| ==> w[i] != ' '
  }

  /** Length of the leading run of non-space characters. */
  function TokenLength(s: string): (k: nat)
    ensures k <= |s|
    ensures forall i :: 0 <= i < k ==> s[i] != ' '
    ensures k < |s| ==> s[k] == ' '
  {
    if s == [] || s[0] == ' ' then 0 else 1 + TokenLength(s[1..])
  }

  /**
   * `str.split()` with no argument: the maximal runs of non-separator
   * characters, in order, with no empty strings. The only separator the
   * core ever meets is ' ' (everything else was replaced by a space before).
   */
  function Split(s: string): (r: seq<string>)
    ensures forall k :: 0 <= k < |r| ==> IsToken(r[k])
    ensures forall k, i :: 0 <= k < |r| && 0 <= i < |r[k]| ==> r[k][i] in s
    ensures r == [] <==> forall i :: 0 <= i < |s| ==> s[i] == ' '
    decreases |s|
  {
    if s == [] then []
    else if s[0] == ' ' then Split(s[1..])
    else
      var k := TokenLength(s);
      [s[..k]] + Split(s[k..])
  }

  lemma {:induction false} SplitAtSpace(a: string, b: string)
    ensures Split(a + " " + b) == Split(a) + Split(b)
    decreases |a|
  {
    if a == [] {
      assert (a + " " + b)[1..] == b;
    } else if a[0] == ' ' {
      SplitSpacePrefix(a, b);
      SplitAtSpace(a[1..], b);
    } else {
      var k := TokenLength(a);
      SplitTokenPrefix(a, b);
      SplitAtSpace(a[k..], b);
      assert [a[..k]] + (Split(a[k..]) + Split(b)) == ([a[..k]] + Split(a[k..])) + Split(b);
    }
  }

  /** A leading space of a non-empty `a` is skipped in `a + " " + b` too. */
  lemma SplitSpacePrefix(a: string, b: string)
    requires a != [] && a[0] == ' '
    ensures Split(a + " " + b) == Split(a[1..] + " " + b)
  {
    assert (a + " " + b)[1..] == a[1..] + " " + b;
  }

  /** The first token of `a + " " + b` lies wholly inside a non-empty `a`. */
  lemma SplitTokenPrefix(a: string, b: string)
    requires a != [] && a[0] != ' '
    ensures Split(a + " " + b) == [a[..TokenLength(a)]] + Split(a[TokenLength(a)..] + " " + b)
  {
    var s := a + " " + b;
    var k := TokenLength(a);
    assert s == a + (" " + b);
    assert TokenLength(s) == k by { TokenLengthPrefix(a, " " + b); }
    assert s[..k] == a[..k];
    assert s[k..] == a[k..] + " " + b;
  }

  lemma {:induction false} TokenLengthPrefix(a: string, b: string)
    requires b != [] && b[0] == ' '
    ensures TokenLength(a + b) == TokenLength(a)
    decreases |a|
  {
    if a != [] && a[0] != ' ' {
      assert (a + b)[1..] == a[1..] + b;
      TokenLengthPrefix(a[1..], b);
    }
  }

  /** `' '.join(ws)`. */
  function Join(ws: seq<string>): string
  {
    if |ws| == 0 then ""
    else if |ws| == 1 then ws[0]
    else ws[0] + " " + Join(ws[1..])
  }

  lemma SplitToken(w: string)
    requires IsToken(w)
    ensures Split(w) == [w]
  {
    assert w[0] != ' ';
    assert TokenLength(w) == |w|;
    assert w[..|w|] == w && w[|w|..] == [];
  }

  /** Splitting a join of tokens gives the tokens back. */
  lemma {:induction false} SplitJoin(ws: seq<string>)
    requires forall k :: 0 <= k < |ws| ==> IsToken(ws[k])
    ensures Split(Join(ws)) == ws
  {
    if |ws| == 1 {
      SplitToken(ws[0]);
    } else if |ws| > 1 {
      SplitToken(ws[0]);
      SplitAtSpace(ws[0], Join(ws[1..]));
      SplitJoin(ws[1..]);
    }
  }

  /**
   * The shape of a normalised review: lower-case ASCII letters and single
   * spaces, with no space at either end.
   */
  predicate IsCleanText(s: string)
  {
    && (forall i :: 0 <= i < |s| ==> IsLowerLetter(s[i]) || s[i] == ' ')
    && (|s| > 0 ==> s[0] != ' ' && s[|s| - 1] != ' ')
    && (forall i :: 0 <= i < |s| - 1 ==> !(s[i] == ' ' && s[i + 1] == ' '))
  }

  /** A word of lower-case ASCII letters, as the lemmatiser is assumed to return. */
  predicate IsLowerWord(w: string)
  {
    |w| > 0 && forall i :: 0 <= i < |w| ==> IsLowerLetter(w[i])
  }

  lemma {:induction false} JoinLowerWords(ws: seq<string>)
    requires forall k :: 0 <= k < |ws| ==> IsLowerWord(ws[k])
    ensures IsCleanText(Join(ws))
  {
    if |ws| > 1 {
      JoinLowerWords(ws[1..]);
      var w, rest := ws[0], Join(ws[1..]);
      var s := w + " " + rest;
      assert Join(ws) == s;
      assert |rest| > 0 && rest[0] != ' ' by {
        assert IsLowerWord(ws[1]);
        JoinFirst(ws[1..]);
      }
      forall i | 0 <= i < |s| - 1
        ensures !(s[i] == ' ' && s[i + 1] == ' ')
      {
        if i < |w| - 1 {
        } else if i == |w| - 1 {
        } else if i == |w| {
          assert s[i + 1] == rest[0];
        } else {
          assert s[i] == rest[i - |w| - 1] && s[i + 1] == rest[i - |w|];
        }
      }
    }
  }

  lemma {:induction false} JoinFirst(ws: seq<string>)
    requires |ws| > 0 && |ws[0]| > 0
    ensures |Join(ws)| > 0 && Join(ws)[0] == ws[0][0]
  {
  }

  /** `needle` occurs in `hay` starting at position `i`. */
  predicate OccursAt(needle: string, hay: string, i: nat)
  {
    i + |needle| <= |hay| && hay[i..i + |needle|] == needle
  }

  /** Python's substring test `needle in hay`. */
  function Contains(needle: string, hay: string): (r: bool)
    ensures r <==> exists i: nat :: OccursAt(needle, hay, i)
    decreases |hay|
  {
    if |needle| <= |hay| && hay[..|needle|] == needle then
      assert OccursAt(needle, hay, 0);
      true
    else if |hay| == 0 || |needle| > |hay| then
      assert forall i: nat :: !OccursAt(needle, hay, i);
      false
    else
      var rest := Contains(needle, hay[1..]);
      assert forall i: nat :: OccursAt(needle, hay[1..], i) <==> OccursAt(needle, hay, i + 1);
      assert !OccursAt(needle, hay, 0);
      assert forall i: nat :: i > 0 && OccursAt(needle, hay, i) ==> OccursAt(needle, hay[1..], i - 1);
      rest
  }

  /** A needle with a character the haystack lacks cannot occur in it. */
  lemma MissingCharNotContained(needle: string, hay: string, c: char)
    requires c in needle && c !in hay
    ensures !Contains(needle, hay)
  {
  }
}
