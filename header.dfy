/**
 * The header clean-up each script applies to the first sheet row before it
 * looks columns up by name: hr_gsheet2db_dag.py:75 and
 * hr_merge2gsheet_20241022.py:69 strip every label and rename the blank
 * ones; hr_sheet2db.py:35 renames only the labels that are exactly empty.
 */
module Header {
  import opened Text

  /** `f'col_{i+1}'`: the name given to the unnamed column at 0-based position `i`. */
  function ColumnLabel(i: nat): (r: string)
    ensures |r| > 4 && r[..4] == "col_"
  {
    "col_" + Decimal(i + 1)
  }

  /** A generated label is neither blank nor padded with whitespace. */
  lemma ColumnLabelClean(i: nat)
    ensures ColumnLabel(i) != [] && Strip(ColumnLabel(i)) == ColumnLabel(i)
  {
    var r := ColumnLabel(i);
    assert r[0] == 'c';
    assert r[|r| - 1] == Decimal(i + 1)[|Decimal(i + 1)| - 1];
    StripOfTrimmed(r);
  }

  /** Different positions get different generated labels. */
  lemma ColumnLabelInjective(i: nat, j: nat)
    requires ColumnLabel(i) == ColumnLabel(j)
    ensures i == j
  {
    assert ColumnLabel(i)[4..] == Decimal(i + 1);
    assert ColumnLabel(j)[4..] == Decimal(j + 1);
    DecimalInjective(i + 1, j + 1);
  }

  /**
   * hr_gsheet2db_dag.py:75: a label that is blank after stripping becomes
   * `col_<position+1>`; every other label is stripped.
   */
  function SanitizeStripped(header: seq<string>): (r: seq<string>)
    ensures |r| == |header|
    ensures forall i :: 0 <= i < |r| ==>
      r[i] == if IsBlank(header[i]) then ColumnLabel(i) else Strip(header[i])
  {
    var r := seq(|header|, i requires 0 <= i < |header| =>
      if Strip(header[i]) == "" then ColumnLabel(i) else Strip(header[i]));
    assert forall i :: 0 <= i < |r| ==> (Strip(header[i]) == "" <==> IsBlank(header[i])) by {
      forall i | 0 <= i < |r| {
        StripEmptyIffBlank(header[i]);
      }
    }
    r
  }

  /** After the stripping clean-up no label is empty and none has whitespace around it. */
  lemma SanitizeStrippedClean(header: seq<string>)
    ensures forall i :: 0 <= i < |header| ==>
      SanitizeStripped(header)[i] != "" && Strip(SanitizeStripped(header)[i]) == SanitizeStripped(header)[i]
  {
    var r := SanitizeStripped(header);
    forall i | 0 <= i < |header|
      ensures r[i] != "" && Strip(r[i]) == r[i]
    {
      if IsBlank(header[i]) {
        ColumnLabelClean(i);
      } else {
        StripEmptyIffBlank(header[i]);
        StripIdempotent(header[i]);
      }
    }
  }

  /** Cleaning an already cleaned header changes nothing. */
  lemma SanitizeStrippedIdempotent(header: seq<string>)
    ensures SanitizeStripped(SanitizeStripped(header)) == SanitizeStripped(header)
  {
    var r := SanitizeStripped(header);
    SanitizeStrippedClean(header);
    forall i | 0 <= i < |r|
      ensures SanitizeStripped(r)[i] == r[i]
    {
      StripEmptyIffBlank(r[i]);
    }
  }

  /**
   * hr_sheet2db.py:35: only a label equal to `''` is renamed; whitespace
   * labels and all others are kept exactly as written.
   */
  function SanitizeExact(header: seq<string>): (r: seq<string>)
    ensures |r| == |header|
    ensures forall i :: 0 <= i < |r| ==> r[i] != ""
    ensures forall i :: 0 <= i < |r| && header[i] != "" ==> r[i] == header[i]
    ensures forall i :: 0 <= i < |r| && header[i] == "" ==> r[i] == ColumnLabel(i)
  {
    seq(|header|, i requires 0 <= i < |header| => if header[i] == "" then ColumnLabel(i) else header[i])
  }
}
