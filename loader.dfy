/**
 * The data set as the notebook prepares it at start-up: the CSV rows with
 * their index labels, the selection of three conditions and `dropna`.
 */
module Loader {
  import opened Wrappers

  /**
   * One data row of the CSV file. `ignored` holds the columns the code drops
   * by name ('Unnamed: 0', 'date', 'usefulCount'); `others` holds every other
   * column the code does not name. A `None` is a missing value (NaN).
   */
  datatype CsvRow = CsvRow(drugName: Option<string>, condition: Option<string>,
                           review: Option<string>, others: seq<Option<string>>,
                           ignored: seq<Option<string>>)

  /** A row of the frame: its index label and the columns kept after the drop. */
  datatype Record = Record(rowLabel: nat, drugName: Option<string>, condition: Option<string>,
                           review: Option<string>, others: seq<Option<string>>)

  /** The condition labels kept by the selection of the data set. */
  const SelectedConditions: seq<string> := ["Depression", "High Blood Pressure", "Diabetes, Type 2"]

  /**
   * `read_csv` numbers the data rows 0, 1, 2, ...; dropping the ignored columns
   * keeps every row.
   */
  function FromCsv(csv: seq<CsvRow>): (df: seq<Record>)
    ensures |df| == |csv|
    ensures forall i :: 0 <= i < |csv| ==>
      df[i] == Record(i, csv[i].drugName, csv[i].condition, csv[i].review, csv[i].others)
  {
    seq(|csv|, i requires 0 <= i < |csv| =>
      Record(i, csv[i].drugName, csv[i].condition, csv[i].review, csv[i].others))
  }

  /** The boolean mask of the selection; a missing condition compares unequal to every label. */
  predicate IsSelected(r: Record)
  {
    r.condition.Some? && r.condition.value in SelectedConditions
  }

  /** `dropna(axis=0)` keeps exactly the rows with no missing value. */
  predicate Complete(r: Record)
  {
    && r.drugName.Some? && r.condition.Some? && r.review.Some?
    && forall k :: 0 <= k < |r.others| ==> r.others[k].Some?
  }

  /** `df[mask]`: the rows for which `keep` holds, in frame order, labels unchanged. */
  function Where(df: seq<Record>, keep: Record -> bool): (r: seq<Record>)
    ensures |r| <= |df|
    ensures forall k :: 0 <= k < |r| ==> r[k] in df && keep(r[k])
    ensures forall x :: x in df && keep(x) ==> x in r
  {
    if df == [] then []
    else if keep(df[0]) then [df[0]] + Where(df[1..], keep)
    else Where(df[1..], keep)
  }

  lemma {:induction false} WhereNone(df: seq<Record>, keep: Record -> bool)
    requires forall k :: 0 <= k < |df| ==> !keep(df[k])
    ensures Where(df, keep) == []
  {
    if df != [] {
      WhereNone(df[1..], keep);
    }
  }

  /** Index labels increase along the frame (so they are also unique). */
  predicate LabelsIncreasing(df: seq<Record>)
  {
    forall i, j :: 0 <= i < j < |df| ==> df[i].rowLabel < df[j].rowLabel
  }

  /** Selecting rows keeps their relative order. */
  lemma {:induction false} WhereAppend(a: seq<Record>, b: seq<Record>, keep: Record -> bool)
    ensures Where(a + b, keep) == Where(a, keep) + Where(b, keep)
  {
    if a == [] {
      assert a + b == b;
    } else {
      assert (a + b)[1..] == a[1..] + b;
      WhereAppend(a[1..], b, keep);
    }
  }

  /** Selecting rows keeps the labels increasing. */
  lemma {:induction false} WhereKeepsLabelsIncreasing(df: seq<Record>, keep: Record -> bool)
    requires LabelsIncreasing(df)
    ensures LabelsIncreasing(Where(df, keep))
  {
    if df != [] {
      WhereKeepsLabelsIncreasing(df[1..], keep);
      var rest := Where(df[1..], keep);
      forall k | 0 <= k < |rest| ensures df[0].rowLabel < rest[k].rowLabel {
        var j :| 0 <= j < |df[1..]| && df[1..][j] == rest[k];
        assert df[j + 1] == rest[k];
      }
    }
  }

  /**
   * Lines 26 to 29: number the rows, drop the ignored columns, select the
   * three conditions and drop every row with a missing value.
   */
  method Load(csv: seq<CsvRow>) returns (df: seq<Record>)
    ensures LabelsIncreasing(df)
    ensures forall k :: 0 <= k < |df| ==> Complete(df[k]) && IsSelected(df[k])
    ensures forall k :: 0 <= k < |df| ==> df[k].rowLabel < |csv| && df[k] == FromCsv(csv)[df[k].rowLabel]
    ensures forall i :: 0 <= i < |csv| ==>
      (FromCsv(csv)[i] in df <==> IsSelected(FromCsv(csv)[i]) && Complete(FromCsv(csv)[i]))
  {
    ghost var all := FromCsv(csv);
    df := FromCsv(csv);
    assert LabelsIncreasing(df);
    WhereKeepsLabelsIncreasing(df, IsSelected);
    df := Where(df, IsSelected);
    WhereKeepsLabelsIncreasing(df, Complete);
    ghost var selected := df;
    df := Where(df, Complete);
    forall k | 0 <= k < |df|
      ensures df[k].rowLabel < |csv| && df[k] == all[df[k].rowLabel]
    {
      assert df[k] in selected;
      assert df[k] in all;
    }
    forall i | 0 <= i < |csv|
      ensures all[i] in df <==> IsSelected(all[i]) && Complete(all[i])
    {
      if all[i] in df {
        assert all[i] in selected;
      }
    }
  }
}
