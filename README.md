# Drug recommender core, modelled in Dafny

The notebook `APP.PY` is a small drug recommender. It loads drug reviews and keeps the rows
for three conditions. For a user's review it then does four things:

- it normalises the text (`review_to_words`);
- it finds the first condition whose keyword occurs in the normalised text;
- it ranks that condition's rows by a cosine-similarity score;
- it returns `[drugName, condition]` pairs.

This project models those pieces and proves properties of them:

- `text.dfy` (module `Text`): the Python string operations the core uses. These are
  `string.punctuation`, `str.translate` with a deletion table, `str.lower`, the `[^a-zA-Z]`
  substitution, `str.split()`, `' '.join` and the substring test `in`.
- `normalizer.dfy` (module `Normalizer`): `review_to_words` as a pure function. The HTML
  stripper, the stopword set and the lemmatiser are parameters (`strip`, `stop`,
  `lemmatize`). Where a property needs it, the model assumes that the lemmatiser maps a word
  of lower-case ASCII letters to a word of lower-case ASCII letters (`KeepsLowerWords`).
- `conditions.dfy` (module `Conditions`): the `CONDITIONS` table as an ordered sequence, in
  the dictionary's insertion order. The first-match-wins search is the imperative method
  `DetectCondition`, written with the same nested loops and `break`s as the source. It is
  proved equal to the specification function `FirstMatch`.
- `loader.dfy` (module `Loader`): the start-up preparation of the data set. Rows are numbered
  as `read_csv` numbers them. The rows of the three conditions are selected and `dropna`
  removes rows with a missing value. This is the method `Load` over sequence filters.
- `ranking.dfy` (module `Ranking`): the ranking tail of `get_top_drugs`. The score vector
  `cosine_sim[-1]` and the order numpy's `argsort` gives for it are inputs. `IsArgsort` says
  what such an order is. It allows any order among equal scores, because numpy's default
  sort is not stable. The pandas `KeyError`s are the `Err` case of a `Result`.
- `recommender.dfy` (module `Recommender`): `get_top_drugs` as a method that composes the
  pieces above.

The model follows the code in these points:

- The third condition's label is `'Diabetes, Type 2'`, with a comma.
- Ties between equal scores are not broken in any fixed order.
- The position dropped at line 90 is the first position of the descending order. Nothing
  ties it to the reference row.
- A condition subset can make the lookup fail with `KeyError`, rather than return fewer rows
  (see Findings).

## Model

| member | source | states |
|---|---|---|
| `Text.PunctuationRangesArePythons` | APP.PY:46 | the four ASCII ranges used for punctuation are exactly the characters of `string.punctuation` |
| `Text.DeletePunctuation` | APP.PY:46 | no punctuation character survives the deletion table, every survivor comes from the input, and the result is never longer |
| `Text.DeletePunctuationAppend` | APP.PY:46 | deleting punctuation works character by character: it distributes over concatenation and keeps order |
| `Text.Split` | APP.PY:53 | `split()` yields non-empty tokens without spaces, built from the input's characters; it yields no tokens exactly when the input is all spaces |
| `Text.SplitAtSpace` | APP.PY:53 | a space separates: the tokens of `a + " " + b` are the tokens of `a` followed by those of `b` |
| `Text.SplitJoin` | APP.PY:53-58 | splitting the `' '.join` of tokens gives the same tokens back |
| `Text.JoinLowerWords` | APP.PY:58 | joining lower-case words gives lower-case letters and single spaces, with no space at either end |
| `Text.Contains` | APP.PY:70 | `needle in hay` holds exactly when the needle occurs at some position of the haystack |
| `Text.MissingCharNotContained` | APP.PY:70 | a needle with a character the haystack lacks is not contained in it |
| `Normalizer.Scrub` | APP.PY:46-50 | after deleting punctuation, lower-casing and replacing non-letters, only lower-case ASCII letters and spaces remain |
| `Normalizer.Tokens` | APP.PY:53 | every token of the scrubbed text is a non-empty word of lower-case ASCII letters |
| `Normalizer.RemoveStopwords` | APP.PY:54 | the kept tokens are tokens of the input and not stopwords, and every token that is not a stopword is kept |
| `Normalizer.RemoveStopwordsAppend` | APP.PY:54 | the stopword filter keeps the relative order of tokens (it distributes over concatenation) |
| `Normalizer.ScrubAppend` | APP.PY:46-50 | the character steps act on each character separately, so they distribute over concatenation |
| `Normalizer.PunctuationJoins` | APP.PY:46 | a punctuation character is deleted outright, so the text on either side joins |
| `Normalizer.OtherCharSeparates` | APP.PY:50-53 | a digit or any other non-letter that is not punctuation becomes a space and separates tokens |
| `Normalizer.ApostropheIsDeleted` | APP.PY:46-53 | `"Don't"` gives the single token `"dont"` |
| `Normalizer.DigitSeparates` | APP.PY:50-53 | `"a2b"` gives the two tokens `"a"` and `"b"` |
| `Normalizer.ReviewIsCleanText` | APP.PY:41-58 | if the lemmatiser keeps lower-case words lower-case, the normalised review has only lower-case ASCII letters and single separating spaces, with none at either end |
| `Normalizer.ReviewWords` | APP.PY:53-58 | the normalised review has one word per token that is not a stopword, in order; word k is the lemma of the k-th kept token, and the stopword test is applied to the token |
| `Normalizer.NoLettersGivesEmpty` | APP.PY:43-58 | if the stripped text has no ASCII letter (digits, punctuation, whitespace only), the result is the empty string |
| `Normalizer.EmptyGivesEmpty` | APP.PY:41-58 | the empty review normalises to the empty string |
| `Normalizer.StopwordMayReappear` | APP.PY:54-55 | a token that is not a stopword but whose lemma is one (`"doing"` to `"do"`) reaches the output |
| `Normalizer.ReviewToWordsIdempotent` | APP.PY:41-58 | normalising a normalised review again changes nothing, if the stripper leaves plain text alone, no lemma is a stopword and lemmas are fixed points of the lemmatiser |
| `Conditions.FirstMatch` | APP.PY:67-74 | none exactly when no entry has a matching keyword; otherwise the label of the entry that matches with no earlier entry matching |
| `Conditions.DetectCondition` | APP.PY:67-74 | the nested loops with their `break`s compute exactly `FirstMatch` over the table |
| `Conditions.KeywordNeedsChar` | APP.PY:70 | a keyword with a lower-cased character missing from the lower-cased text does not match |
| `Conditions.KeywordWithOtherCharIsDead` | APP.PY:70 | a keyword with a character that is neither a letter nor a space never matches text made of lower-case letters and spaces |
| `Conditions.DiabetesLabelKeywordIsDead` | APP.PY:35 | the keyword `'Diabetes, Type 2'` never matches a normalised review |
| `Conditions.HypertensionMeansHighBloodPressure` | APP.PY:33-34 | text containing "hypertension" and no Depression keyword is detected as High Blood Pressure |
| `Conditions.DepressionWins` | APP.PY:33 | a Depression keyword decides the result, whatever else the text contains |
| `Conditions.ThirdEntryWins` | APP.PY:33-35 | text matching only the third entry is detected as `'Diabetes, Type 2'` |
| `Conditions.MoodSwingIsDepression` | APP.PY:33 | `"feel depressed mood swing lot"` is detected as Depression |
| `Conditions.SubstringNotWord` | APP.PY:35 | `"undiagnosed"` is detected as `'Diabetes, Type 2'`: matching is substring containment, not whole-word matching |
| `Conditions.NoMatchWithoutDOrP` | APP.PY:32-36 | every keyword contains a `d` or a `p`, so text without either letter detects no condition |
| `Conditions.NoEntryNoMatch` | APP.PY:67-74 | when no entry matches, the search yields none |
| `Conditions.NothingRelevant` | APP.PY:67-78 | `"nothing relevant here"` detects no condition |
| `Loader.Where` | APP.PY:28 | selecting rows by a mask keeps exactly the rows the mask accepts |
| `Loader.WhereAppend` | APP.PY:28-29 | selecting rows keeps their relative order (it distributes over concatenation) |
| `Loader.WhereKeepsLabelsIncreasing` | APP.PY:28-29 | selecting rows keeps the index labels increasing |
| `Loader.Load` | APP.PY:26-29 | a row is retained exactly when its condition is one of the three labels and no field is missing; retained rows are unchanged and keep their order |
| `Ranking.Below` | APP.PY:89 | the set of positions below n has n elements |
| `Ranking.PermutationCovers` | APP.PY:89 | an argsort, a permutation of 0 to n - 1, lists every position below n |
| `Ranking.ReversedArgsortDescends` | APP.PY:89 | reversing the ascending argsort orders the positions by non-increasing score |
| `Ranking.TopPositionsShape` | APP.PY:89-90 | there are `min(num, n - 1)` selected positions (none when n = 0); they are distinct and in non-increasing score order |
| `Ranking.TopPositionsDropFirst` | APP.PY:90 | the dropped first position has the highest score and is not selected |
| `Ranking.TopPositionsAreTop` | APP.PY:89-90 | any position that is neither dropped nor selected scores no higher than every selected position |
| `Ranking.SortedLabelsFailIff` | APP.PY:88-89 | the label lookup raises `KeyError` exactly when the score vector is longer than the number of rows |
| `Ranking.Loc` | APP.PY:93 | a successful `.loc` lookup returns only rows of the frame |
| `Ranking.WhereLabelFindsRow` | APP.PY:93 | with unique labels, looking up a row's label finds that row alone |
| `Ranking.LocFindsRows` | APP.PY:93 | looking up the labels of rows of the frame returns those rows, in order |
| `Ranking.TopDrugsRows` | APP.PY:88-93 | when each score position is a row position, the result is the `(drugName, condition)` of the rows at the selected positions, in order |
| `Ranking.TopDrugsLength` | APP.PY:89-90 | on success the result has `min(num, n - 1)` pairs: at most `num`, and fewer than the number of rows |
| `Ranking.TopDrugsFromRows` | APP.PY:93 | every returned pair is the `(drugName, condition)` of a row of the condition's rows |
| `Ranking.TiesAreNotBroken` | APP.PY:89 | both orders of two equal scores are valid argsorts, and they select different positions |
| `Ranking.TermScoresOutnumberRows` | APP.PY:85-89 | as written: three term scores and two reviews make the lookup raise `KeyError`, whatever the scores |
| `Ranking.ReviewScoresNeverFail` | APP.PY:85-89 | with one score per review, the lookup never fails and m reviews yield `min(num, m - 1)` pairs |
| `Recommender.ConditionRows` | APP.PY:76 | the condition's rows are exactly the frame rows with that condition |
| `Recommender.TableKeysAreSelected` | APP.PY:28-36 | the table's labels, in order, are the three labels the data set was cut down to |
| `Recommender.GetTopDrugs` | APP.PY:62-95 | no detected condition gives `[]`; otherwise the result is the ranking of that condition's rows; every returned pair carries the detected condition; only a detected condition can lead to `KeyError` |

## Left out

- CSV reading and its Latin-1 decoding (APP.PY:26) are file I/O. The model starts from the
  rows in memory. Dropping the three ignored columns (APP.PY:27) is modelled only as
  forgetting them.
- BeautifulSoup (APP.PY:43), the NLTK stopword list (APP.PY:38) and the WordNet lemmatiser
  (APP.PY:39, 55) are foreign libraries. They are the parameters `strip`, `stop` and
  `lemmatize`. `KeepsLowerWords` is the one assumption made about the lemmatiser.
- `Normalizer.NoLettersGivesEmpty`: stated about the stripped text, not the raw review. An
  HTML entity such as `&#65;` has no letters but becomes `A` once stripped.
- `Text.Lower`: only the ASCII upper-case letters are mapped. Python's Unicode mappings,
  such as the Kelvin sign to `k`, are not modelled. In the model a non-ASCII letter becomes
  a space at the next step.
- `Text.Split`: splits on `' '` only. At that step the text holds nothing but ASCII letters
  and spaces, so this is what `str.split()` does there.
- TF-IDF fitting and cosine similarity (APP.PY:81-85) are sklearn floating-point numerics.
  The score vector is the parameter `similarity`, with scores modelled as `real`. The
  `ValueError` sklearn raises for an empty vocabulary is not modelled.
- The `review_clean` column (APP.PY:60) only feeds the TF-IDF fit, so it is left out with
  it.
- `Conditions.DetectCondition` searches the fixed table only. It is not generic over other
  tables.
- `Recommender.GetTopDrugs`: `num` is a natural number. The notebook only ever uses the
  default 5. Python's negative slice bounds are not modelled.
- The Streamlit UI, the button and the display of results and errors (APP.PY:98-118) are
  presentation. The `except` at APP.PY:117 is what a modelled `Err(KeyError)` would reach.
- The empty notebook cells and the notebook metadata (APP.PY:121-190).
- No claim is made that the reference row itself is excluded, or that ties are broken
  stably. The code drops the first position of an unstable argsort, and nothing more.

## Findings

| source | as written | input that shows it | evidently intended | confidence | as-written member | corrected member |
|---|---|---|---|---|---|---|
| APP.PY:85 | `cosine_similarity(tfidf_matrix.T, tfidf_matrix.T)` compares terms with terms, so `cosine_sim[-1]` has one score per TF-IDF term (up to 1000). Line 89 then uses its positions as row positions. | a condition subset of two reviews whose vocabulary has three terms: position 2 is not a row position and pandas raises `KeyError` | `cosine_similarity(tfidf_matrix)`, with one score per review, so every sorted position names a row | not executed; high | `Ranking.TermScoresOutnumberRows` | `Ranking.ReviewScoresNeverFail` |
