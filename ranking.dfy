/**
 * The ranking tail of `get_top_drugs`: sort the positions of the score
 * vector by decreasing score, turn them into row labels, drop the first,
 * keep the next `num` and look the rows up.
 *
 * The score vector (`cosine_sim[-1]`) and the order `argsort` returns for
 * it are inputs; `scores` is indexed by position 0 .. |scores| - 1.
 */
module Ranking {
  import opened Wrappers
  import opened Loader

  /** One `[drugName, condition]` entry of the returned list. */
  datatype Pair = Pair(drugName: string, condition: string)

  /** The pandas exception raised for a position or label that is not in the index. */
  datatype Error = KeyError

  function Min(a: int, b: int): int { if a <= b then a else b }

  predicate Distinct(p: seq<nat>)
  {
    forall k, l :: 0 <= k < l < |p| ==> p[k] != p[l]
  }

  /** `p` lists each of 0 .. n - 1 exactly once. */
  predicate IsPermutationOfRange(p: seq<nat>, n: nat)
  {
    |p| == n && (forall k :: 0 <= k < n ==> p[k] < n) && Distinct(p)
  }

  /**
   * `scores.argsort()`: the positions ordered by non-decreasing score. numpy's
   * default sort is not stable, so any order among equal scores is allowed.
   */
  predicate IsArgsort(order: seq<nat>, scores: seq<real>)
  {
    && IsPermutationOfRange(order, |scores|)
    && forall k, l :: 0 <= k < l < |order| ==> scores[order[k]] <= scores[order[l]]
  }

  /** The positions ordered by non-increasing score. */
  predicate IsDescendingOrder(order: seq<nat>, scores: seq<real>)
  {
    && IsPermutationOfRange(order, |scores|)
    && forall k, l :: 0 <= k < l < |order| ==> scores[order[k]] >= scores[order[l]]
  }

  /** `s[::-1]`. */
  function Reverse(s: seq<nat>): (r: seq<nat>)
    ensures |r| == |s|
    ensures forall k :: 0 <= k < |s| ==> r[k] == s[|s| - 1 - k]
  {
    seq(|s|, k requires 0 <= k < |s| => s[|s| - 1 - k])
  }

  /** Python's `s[lo:hi]` for non-negative bounds: both are clamped to the length. */
  function Slice<T>(s: seq<T>, lo: nat, hi: nat): (r: seq<T>)
    ensures |r| == if Min(hi, |s|) <= Min(lo, |s|) then 0 else Min(hi, |s|) - Min(lo, |s|)
    ensures forall k :: 0 <= k < |r| ==> r[k] == s[Min(lo, |s|) + k]
  {
    var a, b := Min(lo, |s|), Min(hi, |s|);
    if b <= a then [] else s[a..b]
  }

  /** The positions line 90 keeps: the descending order without its first entry, cut to `num`. */
  function TopPositions(asc: seq<nat>, num: nat): seq<nat>
  {
    Slice(Reverse(asc), 1, num + 1)
  }

  /** The rows at the given positions, in that order. */
  function RowsAt(rows: seq<Record>, positions: seq<nat>): (r: seq<Record>)
    requires forall i :: 0 <= i < |positions| ==> positions[i] < |rows|
    ensures |r| == |positions|
    ensures forall i :: 0 <= i < |positions| ==> r[i] == rows[positions[i]]
  {
    seq(|positions|, i requires 0 <= i < |positions| => rows[positions[i]])
  }

  /** The index labels of the given rows. */
  function LabelsOf(rs: seq<Record>): (r: seq<nat>)
    ensures |r| == |rs|
    ensures forall i :: 0 <= i < |rs| ==> r[i] == rs[i].rowLabel
  {
    seq(|rs|, i requires 0 <= i < |rs| => rs[i].rowLabel)
  }

  /**
   * `indices[cosine_sim[-1].argsort()[::-1]]`: `indices` is the series of the
   * rows' labels, indexed by row position, so every sorted position must be a
   * row position; otherwise pandas raises KeyError.
   */
  function SortedLabels(rows: seq<Record>, asc: seq<nat>): Result<seq<nat>, Error>
  {
    var desc := Reverse(asc);
    if forall k :: 0 <= k < |desc| ==> desc[k] < |rows| then Ok(LabelsOf(RowsAt(rows, desc)))
    else Err(KeyError)
  }

  function HasLabel(l: nat): Record -> bool
  {
    (r: Record) => r.rowLabel == l
  }

  /**
   * `.loc[labels]`: for each label in turn all rows carrying it, in frame
   * order; KeyError when a label names no row.
   */
  function Loc(rows: seq<Record>, labels: seq<nat>): (r: Result<seq<Record>, Error>)
    ensures r.Ok? ==> forall k :: 0 <= k < |r.value| ==> r.value[k] in rows
  {
    if labels == [] then Ok([])
    else
      var hits := Where(rows, HasLabel(labels[0]));
      if hits == [] then Err(KeyError)
      else
        match Loc(rows, labels[1..])
        case Err(e) => Err(e)
        case Ok(more) => Ok(hits + more)
  }

  function PairOf(r: Record): Pair
    requires Complete(r)
  {
    Pair(r.drugName.value, r.condition.value)
  }

  /** `[['drugName', 'condition']].values.tolist()`. */
  function ToPairs(rs: seq<Record>): (ps: seq<Pair>)
    requires forall k :: 0 <= k < |rs| ==> Complete(rs[k])
    ensures |ps| == |rs|
    ensures forall k :: 0 <= k < |rs| ==> ps[k] == PairOf(rs[k])
  {
    seq(|rs|, k requires 0 <= k < |rs| && Complete(rs[k]) => PairOf(rs[k]))
  }

  /** Lines 88 to 93 of `get_top_drugs`, for the rows of one condition. */
  function TopDrugs(rows: seq<Record>, asc: seq<nat>, num: nat): Result<seq<Pair>, Error>
    requires forall k :: 0 <= k < |rows| ==> Complete(rows[k])
  {
    match SortedLabels(rows, asc)
    case Err(e) => Err(e)
    case Ok(sorted) =>
      match Loc(rows, Slice(sorted, 1, num + 1))
      case Err(e) => Err(e)
      case Ok(hits) =>
        assert forall k :: 0 <= k < |hits| ==> hits[k] in rows;
        Ok(ToPairs(hits))
  }

  // ---------------------------------------------------------------------
  // Counting helpers

  function Values(p: seq<nat>): set<nat>
  {
    set k | 0 <= k < |p| :: p[k]
  }

  /** The positions 0 .. n - 1, as a set. */
  function Below(n: nat): (r: set<nat>)
    ensures |r| == n
    ensures forall x: nat :: x in r <==> x < n
  {
    if n == 0 then {} else Below(n - 1) + {n - 1}
  }

  lemma {:induction false} DistinctValuesSize(p: seq<nat>)
    requires Distinct(p)
    ensures |Values(p)| == |p|
  {
    if p != [] {
      DistinctValuesSize(p[1..]);
      assert Values(p) == {p[0]} + Values(p[1..]);
      assert p[0] !in Values(p[1..]);
    }
  }

  lemma {:induction false} SubsetSize(a: set<nat>, b: set<nat>)
    requires a <= b
    ensures |a| <= |b|
    decreases |a|
  {
    if a != {} {
      var x :| x in a;
      SubsetSize(a - {x}, b - {x});
    }
  }

  /** A permutation of 0 .. n - 1 lists every position below n. */
  lemma PermutationCovers(p: seq<nat>, n: nat, q: nat)
    requires IsPermutationOfRange(p, n) && q < n
    ensures q in p
  {
    DistinctValuesSize(p);
    SubsetSize(Values(p) + {q}, Below(n));
  }

  // ---------------------------------------------------------------------
  // Properties of the ranking

  /** Reversing numpy's ascending argsort gives the positions by non-increasing score. */
  lemma ReversedArgsortDescends(asc: seq<nat>, scores: seq<real>)
    requires IsArgsort(asc, scores)
    ensures IsDescendingOrder(Reverse(asc), scores)
  {
    var desc, n := Reverse(asc), |asc|;
    forall k, l | 0 <= k < l < n ensures desc[k] != desc[l] && scores[desc[k]] >= scores[desc[l]] {
      assert desc[k] == asc[n - 1 - k] && desc[l] == asc[n - 1 - l];
    }
  }

  /** The selected positions are the descending order from its second entry on. */
  lemma TopPositionsAt(asc: seq<nat>, num: nat)
    ensures var top, n := TopPositions(asc, num), |asc|;
            && |top| == (if n == 0 then 0 else Min(num, n - 1))
            && forall i :: 0 <= i < |top| ==> top[i] == Reverse(asc)[i + 1]
  {
  }

  lemma DescendingTail(desc: seq<nat>, scores: seq<real>, lo: nat, hi: nat)
    requires IsDescendingOrder(desc, scores)
    ensures var top := Slice(desc, lo, hi);
            && (forall i :: 0 <= i < |top| ==> top[i] < |scores|)
            && Distinct(top)
            && (forall i, j :: 0 <= i < j < |top| ==> scores[top[i]] >= scores[top[j]])
  {
    var top, a := Slice(desc, lo, hi), Min(lo, |desc|);
    forall i, j | 0 <= i < j < |top|
      ensures top[i] != top[j] && scores[top[i]] >= scores[top[j]]
    {
      assert top[i] == desc[a + i] && top[j] == desc[a + j];
    }
  }

  /**
   * The selected positions: `min(num, n - 1)` of them (none when n = 0), all
   * distinct positions of the score vector, in non-increasing score order.
   */
  lemma TopPositionsShape(asc: seq<nat>, scores: seq<real>, num: nat)
    requires IsArgsort(asc, scores)
    ensures var top, n := TopPositions(asc, num), |scores|;
            && |top| == (if n == 0 then 0 else Min(num, n - 1))
            && (forall i :: 0 <= i < |top| ==> top[i] < n)
            && Distinct(top)
            && (forall i, j :: 0 <= i < j < |top| ==> scores[top[i]] >= scores[top[j]])
  {
    ReversedArgsortDescends(asc, scores);
    TopPositionsAt(asc, num);
    DescendingTail(Reverse(asc), scores, 1, num + 1);
  }

  /**
   * The dropped first position has the highest score, and it is not among
   * the selected positions.
   */
  lemma TopPositionsDropFirst(asc: seq<nat>, scores: seq<real>, num: nat)
    requires IsArgsort(asc, scores) && |scores| > 0
    ensures var best, top := Reverse(asc)[0], TopPositions(asc, num);
            && best < |scores|
            && (forall q :: 0 <= q < |scores| ==> scores[q] <= scores[best])
            && (forall i :: 0 <= i < |top| ==> top[i] != best)
  {
    ReversedArgsortDescends(asc, scores);
    TopPositionsAt(asc, num);
    var desc := Reverse(asc);
    forall q | 0 <= q < |scores| ensures scores[q] <= scores[desc[0]] {
      PermutationCovers(desc, |scores|, q);
    }
  }

  /**
   * The selection is a top-N: every other position except the dropped first
   * scores no higher than any selected one.
   */
  lemma TopPositionsAreTop(asc: seq<nat>, scores: seq<real>, num: nat, q: nat)
    requires IsArgsort(asc, scores) && q < |scores|
    requires q != Reverse(asc)[0] && q !in TopPositions(asc, num)
    ensures forall i :: 0 <= i < |TopPositions(asc, num)| ==> scores[q] <= scores[TopPositions(asc, num)[i]]
  {
    ReversedArgsortDescends(asc, scores);
    TopPositionsAt(asc, num);
    var desc, top := Reverse(asc), TopPositions(asc, num);
    PermutationCovers(desc, |scores|, q);
    var k :| 0 <= k < |desc| && desc[k] == q;
    forall j | 1 <= j <= |top| ensures desc[j] != q {
      assert top[j - 1] == desc[j];
    }
    assert k > |top|;
  }

  /**
   * The lookup at line 89 fails exactly when the score vector is longer than
   * the number of rows.
   */
  lemma SortedLabelsFailIff(rows: seq<Record>, asc: seq<nat>, scores: seq<real>)
    requires IsArgsort(asc, scores)
    ensures SortedLabels(rows, asc).Err? <==> |scores| > |rows|
  {
    var desc := Reverse(asc);
    if |scores| > |rows| {
      PermutationCovers(asc, |scores|, |rows|);
      var k :| 0 <= k < |asc| && asc[k] == |rows|;
      assert desc[|asc| - 1 - k] == |rows|;
    }
  }

  /** With unique labels, looking a row's label up finds that row alone. */
  lemma {:induction false} WhereLabelFindsRow(rows: seq<Record>, p: nat)
    requires LabelsIncreasing(rows) && p < |rows|
    ensures Where(rows, HasLabel(rows[p].rowLabel)) == [rows[p]]
  {
    var keep := HasLabel(rows[p].rowLabel);
    if p == 0 {
      WhereNone(rows[1..], keep);
    } else {
      assert rows[1..][p - 1] == rows[p];
      WhereLabelFindsRow(rows[1..], p - 1);
    }
  }

  /** Looking up the labels of rows of the frame returns those rows, in order. */
  lemma {:induction false} LocFindsRows(rows: seq<Record>, rs: seq<Record>)
    requires LabelsIncreasing(rows)
    requires forall i :: 0 <= i < |rs| ==> rs[i] in rows
    ensures Loc(rows, LabelsOf(rs)) == Ok(rs)
  {
    if rs != [] {
      assert Where(rows, HasLabel(rs[0].rowLabel)) == [rs[0]] by {
        var p :| 0 <= p < |rows| && rows[p] == rs[0];
        WhereLabelFindsRow(rows, p);
      }
      assert LabelsOf(rs)[1..] == LabelsOf(rs[1..]);
      LocFindsRows(rows, rs[1..]);
      assert rs == [rs[0]] + rs[1..];
    }
  }

  /**
   * When every score position is a row position, the result is the
   * `(drugName, condition)` of the rows at the selected positions, in order.
   */
  lemma TopDrugsRows(rows: seq<Record>, asc: seq<nat>, scores: seq<real>, num: nat)
    requires forall k :: 0 <= k < |rows| ==> Complete(rows[k])
    requires LabelsIncreasing(rows)
    requires IsArgsort(asc, scores) && |scores| <= |rows|
    ensures var r, top := TopDrugs(rows, asc, num), TopPositions(asc, num);
            && r.Ok?
            && |r.value| == |top|
            && forall i :: 0 <= i < |top| ==> top[i] < |rows| && r.value[i] == PairOf(rows[top[i]])
  {
    SortedLabelsFailIff(rows, asc, scores);
    TopPositionsShape(asc, scores, num);
    var desc := Reverse(asc);
    var top := TopPositions(asc, num);
    var picked := RowsAt(rows, top);
    assert Slice(LabelsOf(RowsAt(rows, desc)), 1, num + 1) == LabelsOf(picked);
    LocFindsRows(rows, picked);
  }

  /**
   * The result holds at most `num` entries and at most one fewer than the
   * rows; with `n` scores it holds exactly `min(num, n - 1)` of them.
   */
  lemma TopDrugsLength(rows: seq<Record>, asc: seq<nat>, scores: seq<real>, num: nat)
    requires forall k :: 0 <= k < |rows| ==> Complete(rows[k])
    requires LabelsIncreasing(rows)
    requires IsArgsort(asc, scores) && |scores| <= |rows|
    ensures var r := TopDrugs(rows, asc, num);
            && r.Ok?
            && |r.value| == (if |scores| == 0 then 0 else Min(num, |scores| - 1))
            && |r.value| <= num
            && (|rows| > 0 ==> |r.value| <= |rows| - 1)
  {
    TopDrugsRows(rows, asc, scores, num);
    TopPositionsShape(asc, scores, num);
  }

  /** Every returned pair is the `(drugName, condition)` of a row of the frame. */
  lemma TopDrugsFromRows(rows: seq<Record>, asc: seq<nat>, num: nat)
    requires forall k :: 0 <= k < |rows| ==> Complete(rows[k])
    ensures var r := TopDrugs(rows, asc, num);
            r.Ok? ==> forall i :: 0 <= i < |r.value| ==> exists k :: 0 <= k < |rows| && r.value[i] == PairOf(rows[k])
  {
    var r := TopDrugs(rows, asc, num);
    if r.Ok? {
      var sorted := SortedLabels(rows, asc).value;
      var hits := Loc(rows, Slice(sorted, 1, num + 1)).value;
      forall i | 0 <= i < |r.value| ensures exists k :: 0 <= k < |rows| && r.value[i] == PairOf(rows[k]) {
        assert hits[i] in rows;
        var k :| 0 <= k < |rows| && rows[k] == hits[i];
        assert r.value[i] == PairOf(rows[k]);
      }
    }
  }

  /**
   * Equal scores leave the order open: both orders of a tie are possible
   * argsorts, and they select different positions.
   */
  lemma TiesAreNotBroken()
    ensures IsArgsort([0, 1], [0.5, 0.5]) && IsArgsort([1, 0], [0.5, 0.5])
    ensures TopPositions([0, 1], 5) == [0] && TopPositions([1, 0], 5) == [1]
  {
    assert Reverse([0, 1]) == [1, 0];
    assert Reverse([1, 0]) == [0, 1];
  }

  // ---------------------------------------------------------------------
  // The transposed similarity matrix

  /**
   * As written, the score vector has one entry per TF-IDF term. With more
   * terms than rows (here three terms and two reviews) the lookup raises
   * KeyError whatever the scores.
   */
  lemma TermScoresOutnumberRows(rows: seq<Record>, asc: seq<nat>, scores: seq<real>, num: nat)
    requires forall k :: 0 <= k < |rows| ==> Complete(rows[k])
    requires |rows| == 2 && |scores| == 3 && IsArgsort(asc, scores)
    ensures TopDrugs(rows, asc, num) == Err(KeyError)
  {
    SortedLabelsFailIff(rows, asc, scores);
  }

  /**
   * With one score per review, as the ranking intends, the lookup never fails
   * and a subset of m reviews yields `min(num, m - 1)` pairs.
   */
  lemma ReviewScoresNeverFail(rows: seq<Record>, asc: seq<nat>, scores: seq<real>, num: nat)
    requires forall k :: 0 <= k < |rows| ==> Complete(rows[k])
    requires LabelsIncreasing(rows)
    requires |scores| == |rows| && IsArgsort(asc, scores)
    ensures var r := TopDrugs(rows, asc, num);
            r.Ok? && |r.value| == (if |rows| == 0 then 0 else Min(num, |rows| - 1))
  {
    TopDrugsLength(rows, asc, scores, num);
  }
}
