/**
 * `get_top_drugs(review_text, num)`: normalise the review, detect its
 * condition, keep the rows of that condition and rank them.
 *
 * The TF-IDF fit and the cosine similarity (lines 81 to 85) are the
 * parameter `similarity`, which yields `cosine_sim[-1]` for the rows of the
 * condition; numpy's `argsort` is the parameter `argsort`.
 */
module Recommender {
  import opened Wrappers
  import opened Normalizer
  import opened Conditions
  import opened Loader
  import opened Ranking

  function HasCondition(c: string): Record -> bool
  {
    (r: Record) => r.condition == Some(c)
  }

  /** `df[df['condition'] == condition]`. */
  function ConditionRows(df: seq<Record>, c: string): (rows: seq<Record>)
    ensures forall k :: 0 <= k < |rows| ==> rows[k] in df && rows[k].condition == Some(c)
    ensures forall x :: x in df && x.condition == Some(c) ==> x in rows
  {
    Where(df, HasCondition(c))
  }

  /** The condition labels of the table are those the data set was cut down to. */
  lemma TableKeysAreSelected()
    ensures |Table| == |SelectedConditions|
    ensures forall i :: 0 <= i < |Table| ==> Table[i].key == SelectedConditions[i]
  {
  }

  /**
   * The whole request. No detected condition gives the empty list; otherwise
   * the result is the ranking of the detected condition's rows, and every
   * returned pair carries the detected condition.
   */
  method GetTopDrugs(reviewText: string, df: seq<Record>,
                     strip: string -> string, stop: set<string>, lemmatize: string -> string,
                     similarity: seq<Record> -> seq<real>, argsort: seq<real> -> seq<nat>,
                     num: nat)
    returns (r: Result<seq<Pair>, Error>)
    requires forall k :: 0 <= k < |df| ==> Complete(df[k])
    ensures var detected := FirstMatch(Table, ReviewToWords(reviewText, strip, stop, lemmatize));
            && (detected.None? ==> r == Ok([]))
            && (detected.Some? ==>
                  var rows := ConditionRows(df, detected.value);
                  r == TopDrugs(rows, argsort(similarity(rows)), num))
            && (r.Ok? ==> forall i :: 0 <= i < |r.value| ==> Some(r.value[i].condition) == detected)
            && (r.Err? ==> detected.Some?)
  {
    var reviewClean := ReviewToWords(reviewText, strip, stop, lemmatize);
    var condition := DetectCondition(reviewClean);
    if !Truthy(condition) {
      return Ok([]);
    }
    var dfCondition := ConditionRows(df, condition.value);
    var order := argsort(similarity(dfCondition));
    r := TopDrugs(dfCondition, order, num);
    TopDrugsFromRows(dfCondition, order, num);
  }
}
