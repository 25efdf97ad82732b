/**
 * `filter_transcripts`: the summary rows whose length and exon count both
 * reach the thresholds (inclusive), in table order.
 */
module TranscriptFilter {
  import opened Wrappers
  import opened TranscriptStats
  import opened Sequences

  /** Default `min_len` and `min_exons`. */
  const DefaultMinLength: int := 200
  const DefaultMinExons: int := 2

  /** The mask `(length >= min_len) & (exon_count >= min_exons)` for one row. */
  predicate Passes(row: Row, minLength: int, minExons: int) {
    row.length >= minLength && row.exonCount >= minExons
  }

  /**
   * The masked table: a subsequence of the rows holding exactly the rows
   * that pass both thresholds.
   */
  function FilterTranscripts(rows: seq<Row>, minLength: int, minExons: int): (kept: seq<Row>)
    ensures IsSubsequence(kept, rows)
    ensures forall k :: 0 <= k < |kept| ==> Passes(kept[k], minLength, minExons)
    ensures forall k :: 0 <= k < |rows| && Passes(rows[k], minLength, minExons) ==> rows[k] in kept
    decreases |rows|
  {
    if rows == [] then []
    else
      var init := FilterTranscripts(rows[..|rows| - 1], minLength, minExons);
      var last := rows[|rows| - 1];
      assert forall k :: 0 <= k < |rows| - 1 ==> rows[k] == rows[..|rows| - 1][k];
      if Passes(last, minLength, minExons) then
        assert (init + [last])[..|init|] == init;
        init + [last]
      else init
  }

  /** No more rows survive than there were. */
  lemma FilterShrinks(rows: seq<Row>, minLength: int, minExons: int)
    ensures |FilterTranscripts(rows, minLength, minExons)| <= |rows|
  {
    SubsequenceLength(FilterTranscripts(rows, minLength, minExons), rows);
  }

  /**
   * Rows are judged one at a time: filtering distributes over
   * concatenation, so every copy of a passing row is kept.
   */
  lemma {:induction false} FilterAppend(a: seq<Row>, b: seq<Row>, minLength: int, minExons: int)
    ensures FilterTranscripts(a + b, minLength, minExons) ==
            FilterTranscripts(a, minLength, minExons) + FilterTranscripts(b, minLength, minExons)
    decreases |b|
  {
    if b == [] {
      assert a + b == a;
    } else {
      var b' := b[..|b| - 1];
      assert (a + b)[..|a + b| - 1] == a + b';
      FilterAppend(a, b', minLength, minExons);
    }
  }

  /** Filtering twice is filtering once by the larger thresholds. */
  lemma {:induction false} FilterTwice(rows: seq<Row>, l1: int, e1: int, l2: int, e2: int)
    ensures FilterTranscripts(FilterTranscripts(rows, l1, e1), l2, e2) ==
            FilterTranscripts(rows, if l1 < l2 then l2 else l1, if e1 < e2 then e2 else e1)
    decreases |rows|
  {
    if rows != [] {
      var init := rows[..|rows| - 1];
      var last := rows[|rows| - 1];
      FilterTwice(init, l1, e1, l2, e2);
      var f := FilterTranscripts(init, l1, e1);
      if Passes(last, l1, e1) {
        assert (f + [last])[..|f|] == f;
      }
    }
  }

  /**
   * Raising either threshold can only shrink the result: what survives the
   * higher thresholds is a subsequence of what survives the lower ones.
   */
  lemma FilterMonotone(rows: seq<Row>, minLength: int, minExons: int, minLength': int, minExons': int)
    requires minLength <= minLength' && minExons <= minExons'
    ensures IsSubsequence(FilterTranscripts(rows, minLength', minExons'),
                          FilterTranscripts(rows, minLength, minExons))
  {
    FilterTwice(rows, minLength, minExons, minLength', minExons');
  }

  /** Both bounds are inclusive: a row exactly at the thresholds is kept, one below is not. */
  lemma FilterBoundary(transcriptId: string, minLength: int, minExons: nat)
    ensures FilterTranscripts([Row(transcriptId, minExons, minLength)], minLength, minExons) ==
            [Row(transcriptId, minExons, minLength)]
    ensures FilterTranscripts([Row(transcriptId, minExons, minLength - 1)], minLength, minExons) == []
    ensures minExons > 0 ==> FilterTranscripts([Row(transcriptId, minExons - 1, minLength)], minLength, minExons) == []
  {
    assert [Row(transcriptId, minExons, minLength)][..0] == [];
    assert [Row(transcriptId, minExons, minLength - 1)][..0] == [];
    if minExons > 0 {
      assert [Row(transcriptId, minExons - 1, minLength)][..0] == [];
    }
  }

  // ---------------------------------------------------------------------
  // the table as `compute_stats` builds it

  /**
   * The columns a table built from a list of row records has: the three
   * record keys, or none at all when the list is empty.
   */
  datatype Frame = Frame(columns: seq<string>, rows: seq<Row>)

  datatype FrameError = MissingColumn(name: string)

  /** `pd.DataFrame(summary)` */
  function FrameOf(rows: seq<Row>): (f: Frame)
    ensures f.rows == rows
    ensures f.columns == [] <==> rows == []
    ensures rows != [] ==> f.columns == ["transcript_id", "exon_count", "length"]
  {
    Frame(if rows == [] then [] else ["transcript_id", "exon_count", "length"], rows)
  }

  /**
   * `filter_transcripts` as written: the column `length` is looked up
   * first, then `exon_count`; a missing column is an error.
   */
  function FilterFrame(f: Frame, minLength: int, minExons: int): (r: Result<seq<Row>, FrameError>)
    ensures r.Failure? <==> "length" !in f.columns || "exon_count" !in f.columns
    ensures r.Success? ==> r.value == FilterTranscripts(f.rows, minLength, minExons)
  {
    if "length" !in f.columns then Failure(MissingColumn("length"))
    else if "exon_count" !in f.columns then Failure(MissingColumn("exon_count"))
    else Success(FilterTranscripts(f.rows, minLength, minExons))
  }

  /** On a non-empty summary the table form and the row form agree. */
  lemma FilterFrameAgrees(rows: seq<Row>, minLength: int, minExons: int)
    requires rows != []
    ensures FilterFrame(FrameOf(rows), minLength, minExons) == Success(FilterTranscripts(rows, minLength, minExons))
  {
  }

  /**
   * On an empty summary, the table as written has no `length` column, so
   * filtering fails instead of returning no rows.
   */
  lemma EmptyFrameFilterFails(minLength: int, minExons: int)
    ensures FilterFrame(FrameOf([]), minLength, minExons) == Failure(MissingColumn("length"))
    ensures FilterTranscripts([], minLength, minExons) == []
  {
  }
}
