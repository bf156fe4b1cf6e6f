/**
 * The `CONDITIONS` table and the first-match-wins search over it that
 * `get_top_drugs` runs on the normalised review.
 */
module Conditions {
  import opened Wrappers
  import opened Text
  import opened Normalizer

  /** One entry of `CONDITIONS`: a condition label and its trigger keywords. */
  datatype Entry = Entry(key: string, keywords: seq<string>)

  /** `CONDITIONS`, in the dictionary's insertion order. */
  const Table: seq<Entry> := [
    Entry("Depression", ["Depression", "antidepressant", "mood swing"]),
    Entry("High Blood Pressure", ["High Blood Pressure", "blood pressure", "hypertension"]),
    Entry("Diabetes, Type 2", ["Diabetes, Type 2", "diarrhea gas", "diagnosed"])
  ]

  /** `value.lower() in review_clean.lower()`. */
  predicate KeywordMatches(keyword: string, text: string)
  {
    Contains(Lower(keyword), Lower(text))
  }

  /** Some keyword of the entry matches the text. */
  predicate EntryMatches(e: Entry, text: string)
  {
    exists j :: 0 <= j < |e.keywords| && KeywordMatches(e.keywords[j], text)
  }

  /** Entry `i` matches and no earlier entry does. */
  predicate FirstMatchAt(table: seq<Entry>, text: string, i: int)
  {
    && 0 <= i < |table|
    && EntryMatches(table[i], text)
    && forall j :: 0 <= j < i ==> !EntryMatches(table[j], text)
  }

  /** The label of the first entry with a matching keyword, if any. */
  function FirstMatch(table: seq<Entry>, text: string): (r: Option<string>)
    ensures r.None? <==> forall i :: 0 <= i < |table| ==> !EntryMatches(table[i], text)
    ensures forall i :: FirstMatchAt(table, text, i) ==> r == Some(table[i].key)
    ensures r.Some? ==> exists i :: FirstMatchAt(table, text, i) && r.value == table[i].key
  {
    if table == [] then None
    else if EntryMatches(table[0], text) then
      assert FirstMatchAt(table, text, 0);
      Some(table[0].key)
    else
      var rest := FirstMatch(table[1..], text);
      assert forall i :: FirstMatchAt(table, text, i) ==> FirstMatchAt(table[1..], text, i - 1);
      assert forall i :: FirstMatchAt(table[1..], text, i) ==> FirstMatchAt(table, text, i + 1);
      rest
  }

  /** Python truthiness of the `condition` variable (None or a string). */
  predicate Truthy(condition: Option<string>)
  {
    condition.Some? && condition.value != ""
  }

  /**
   * The nested `for` loops of `get_top_drugs`: the inner loop stops at the
   * first matching keyword, the outer loop as soon as `condition` is truthy.
   */
  method DetectCondition(reviewClean: string) returns (condition: Option<string>)
    ensures condition == FirstMatch(Table, reviewClean)
  {
    condition := None;
    var i := 0;
    while i < |Table|
      invariant 0 <= i <= |Table|
      invariant condition == None
      invariant forall k :: 0 <= k < i ==> !EntryMatches(Table[k], reviewClean)
    {
      var values := Table[i].keywords;
      var j := 0;
      while j < |values|
        invariant 0 <= j <= |values|
        invariant condition == None
        invariant forall k :: 0 <= k < j ==> !KeywordMatches(values[k], reviewClean)
      {
        if Contains(Lower(values[j]), Lower(reviewClean)) {
          condition := Some(Table[i].key);
          break;
        }
        j := j + 1;
      }
      assert Table[i].key != "";
      if Truthy(condition) {
        assert FirstMatchAt(Table, reviewClean, i);
        break;
      }
      i := i + 1;
    }
  }

  // ---------------------------------------------------------------------
  // Properties of the table

  /** A lower-cased keyword character missing from the lower-cased text rules the keyword out. */
  lemma KeywordNeedsChar(keyword: string, text: string, i: nat)
    requires i < |keyword| && LowerChar(keyword[i]) !in Lower(text)
    ensures !KeywordMatches(keyword, text)
  {
    MissingCharNotContained(Lower(keyword), Lower(text), LowerChar(keyword[i]));
  }

  /**
   * A keyword holding a character that is neither an ASCII letter nor a
   * space never matches text made of lower-case letters and spaces.
   */
  lemma KeywordWithOtherCharIsDead(keyword: string, text: string, i: nat)
    requires i < |keyword| && !IsAsciiLetter(keyword[i]) && keyword[i] != ' '
    requires forall k :: 0 <= k < |text| ==> IsLowerLetter(text[k]) || text[k] == ' '
    ensures !KeywordMatches(keyword, text)
  {
    LowerNoUpper(text);
    KeywordNeedsChar(keyword, text, i);
  }

  /** `'Diabetes, Type 2'` can never match a normalised review. */
  lemma DiabetesLabelKeywordIsDead(raw: string, strip: string -> string, stop: set<string>,
                                   lemmatize: string -> string)
    requires KeepsLowerWords(lemmatize)
    ensures !KeywordMatches(Table[2].keywords[0], ReviewToWords(raw, strip, stop, lemmatize))
  {
    ReviewIsCleanText(raw, strip, stop, lemmatize);
    assert Table[2].keywords[0][8] == ',';
    KeywordWithOtherCharIsDead(Table[2].keywords[0], ReviewToWords(raw, strip, stop, lemmatize), 8);
  }

  /** A text mentioning "hypertension" and no Depression keyword is detected as High Blood Pressure. */
  lemma HypertensionMeansHighBloodPressure(text: string)
    requires Contains("hypertension", Lower(text))
    requires !EntryMatches(Table[0], text)
    ensures FirstMatch(Table, text) == Some("High Blood Pressure")
  {
    LowerNoUpper("hypertension");
    assert KeywordMatches(Table[1].keywords[2], text);
    assert FirstMatchAt(Table, text, 1);
  }

  /** Earlier entries win: a Depression keyword decides, whatever else the text holds. */
  lemma DepressionWins(text: string)
    requires EntryMatches(Table[0], text)
    ensures FirstMatch(Table, text) == Some("Depression")
  {
    assert FirstMatchAt(Table, text, 0);
  }

  /** An entry is ruled out by one missing character per keyword, at the given positions. */
  lemma EntryRuledOut(e: Entry, text: string, at: seq<nat>)
    requires |at| == |e.keywords|
    requires forall j :: 0 <= j < |at| ==> at[j] < |e.keywords[j]| && LowerChar(e.keywords[j][at[j]]) !in Lower(text)
    ensures !EntryMatches(e, text)
  {
    forall j | 0 <= j < |at| ensures !KeywordMatches(e.keywords[j], text) {
      KeywordNeedsChar(e.keywords[j], text, at[j]);
    }
  }

  /** Entry order decides: a text matching only the third entry gets its label. */
  lemma ThirdEntryWins(text: string)
    requires !EntryMatches(Table[0], text) && !EntryMatches(Table[1], text)
    requires EntryMatches(Table[2], text)
    ensures FirstMatch(Table, text) == Some("Diabetes, Type 2")
  {
    assert FirstMatchAt(Table, text, 2);
  }

  lemma MoodSwingMatches()
    ensures KeywordMatches(Table[0].keywords[2], "feel depressed mood swing lot")
  {
    LowerNoUpper("feel depressed mood swing lot");
    LowerNoUpper("mood swing");
    assert OccursAt("mood swing", "feel depressed mood swing lot", 15);
  }

  lemma MoodSwingIsDepression()
    ensures FirstMatch(Table, "feel depressed mood swing lot") == Some("Depression")
  {
    MoodSwingMatches();
    DepressionWins("feel depressed mood swing lot");
  }

  lemma UndiagnosedFacts()
    ensures !EntryMatches(Table[0], "undiagnosed")
    ensures !EntryMatches(Table[1], "undiagnosed")
    ensures KeywordMatches(Table[2].keywords[2], "undiagnosed")
  {
    LowerNoUpper("undiagnosed");
    LowerNoUpper("diagnosed");
    EntryRuledOut(Table[0], "undiagnosed", [2, 6, 0]);
    EntryRuledOut(Table[1], "undiagnosed", [0, 0, 0]);
    assert OccursAt("diagnosed", "undiagnosed", 2);
  }

  /** Matching is substring containment, not whole-word matching. */
  lemma SubstringNotWord()
    ensures FirstMatch(Table, "undiagnosed") == Some("Diabetes, Type 2")
  {
    UndiagnosedFacts();
    ThirdEntryWins("undiagnosed");
  }

  /**
   * Every keyword of the table contains a 'd' or a 'p', so a text with
   * neither letter (in either case) detects no condition.
   */
  lemma NoMatchWithoutDOrP(text: string)
    requires 'd' !in Lower(text) && 'p' !in Lower(text)
    ensures FirstMatch(Table, text) == None
  {
    DepressionNeedsDOrP(text);
    HighBloodPressureNeedsDOrP(text);
    DiabetesNeedsD(text);
    NoEntryNoMatch(text);
  }

  lemma DepressionNeedsDOrP(text: string)
    requires 'd' !in Lower(text) && 'p' !in Lower(text)
    ensures !EntryMatches(Table[0], text)
  {
    KeywordNeedsChar("Depression", text, 2);
    KeywordNeedsChar("antidepressant", text, 4);
    KeywordNeedsChar("mood swing", text, 3);
  }

  lemma HighBloodPressureNeedsDOrP(text: string)
    requires 'd' !in Lower(text) && 'p' !in Lower(text)
    ensures !EntryMatches(Table[1], text)
  {
    KeywordNeedsChar("High Blood Pressure", text, 9);
    KeywordNeedsChar("blood pressure", text, 4);
    KeywordNeedsChar("hypertension", text, 2);
  }

  lemma DiabetesNeedsD(text: string)
    requires 'd' !in Lower(text)
    ensures !EntryMatches(Table[2], text)
  {
    KeywordNeedsChar("Diabetes, Type 2", text, 0);
    KeywordNeedsChar("diarrhea gas", text, 0);
    KeywordNeedsChar("diagnosed", text, 0);
  }

  lemma NoEntryNoMatch(text: string)
    requires !EntryMatches(Table[0], text) && !EntryMatches(Table[1], text) && !EntryMatches(Table[2], text)
    ensures FirstMatch(Table, text) == None
  {
  }

  lemma NothingRelevantLacksDAndP()
    ensures 'd' !in Lower("nothing relevant here") && 'p' !in Lower("nothing relevant here")
  {
    LowerNoUpper("nothing relevant here");
  }

  /** A review with no keyword detects no condition. */
  lemma NothingRelevant()
    ensures FirstMatch(Table, "nothing relevant here") == None
  {
    NothingRelevantLacksDAndP();
    NoMatchWithoutDOrP("nothing relevant here");
  }
}
