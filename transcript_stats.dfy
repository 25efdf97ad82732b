/**
 * `compute_stats`: one summary row per transcript, in the key order of the
 * transcript table, holding its exon count and its total spliced length.
 */
module TranscriptStats {
  import opened GtfParser
  import opened Sequences

  /** A row of the summary table: `transcript_id, exon_count, length`. */
  datatype Row = Row(transcriptId: string, exonCount: nat, length: int)

  /** The length of one exon, `end - start + 1`; not checked to be positive. */
  function SpanLength(exon: Interval): int {
    exon.end - exon.start + 1
  }

  /** `sum(e - s + 1 for s, e in exons)` */
  function TotalLength(exons: seq<Interval>): (n: int)
    ensures (forall k :: 0 <= k < |exons| ==> exons[k].start <= exons[k].end) ==> n >= |exons|
    decreases |exons|
  {
    if exons == [] then 0 else SpanLength(exons[0]) + TotalLength(exons[1..])
  }

  /** Total length is additive over concatenation (in either order of summation). */
  lemma {:induction false} TotalLengthAppend(a: seq<Interval>, b: seq<Interval>)
    ensures TotalLength(a + b) == TotalLength(a) + TotalLength(b)
    decreases |a|
  {
    if a == [] {
      assert a + b == b;
    } else {
      assert (a + b)[1..] == a[1..] + b;
      TotalLengthAppend(a[1..], b);
    }
  }

  /**
   * Appending one exon adds its span: the length is the running sum the
   * parse builds up line by line.
   */
  lemma TotalLengthSnoc(exons: seq<Interval>, exon: Interval)
    ensures TotalLength(exons + [exon]) == TotalLength(exons) + exon.end - exon.start + 1
  {
    TotalLengthAppend(exons, [exon]);
  }

  /** When every exon has `start <= end`, the length is at least the exon count. */
  lemma {:induction false} TotalLengthAtLeastCount(exons: seq<Interval>)
    requires forall k :: 0 <= k < |exons| ==> exons[k].start <= exons[k].end
    ensures TotalLength(exons) >= |exons|
    decreases |exons|
  {
    if exons != [] {
      TotalLengthAtLeastCount(exons[1..]);
    }
  }

  /** The row of one transcript. */
  function RowOf(a: Annotation, transcriptId: string): (row: Row)
    requires transcriptId in a.exons
    ensures row.transcriptId == transcriptId && row.exonCount == |a.exons[transcriptId]|
    ensures (forall k :: 0 <= k < |a.exons[transcriptId]| ==>
               a.exons[transcriptId][k].start <= a.exons[transcriptId][k].end) ==>
            row.length >= row.exonCount
  {
    Row(transcriptId, |a.exons[transcriptId]|, TotalLength(a.exons[transcriptId]))
  }

  /** Every listed transcript has an interval list. */
  ghost predicate Listed(a: Annotation) {
    forall k :: 0 <= k < |a.order| ==> a.order[k] in a.exons
  }

  /** The summary table, one row per key of the transcript table, in key order. */
  function Summary(a: Annotation): (rows: seq<Row>)
    requires Listed(a)
    ensures |rows| == |a.order|
  {
    seq(|a.order|, k requires 0 <= k < |a.order| => RowOf(a, a.order[k]))
  }

  /** The loop of `compute_stats`, appending one row per transcript. */
  method ComputeStats(a: Annotation) returns (rows: seq<Row>)
    requires Listed(a)
    ensures rows == Summary(a)
  {
    rows := [];
    for i := 0 to |a.order|
      invariant rows == Summary(a)[..i]
    {
      var tid := a.order[i];
      var exons := a.exons[tid];
      var exonCount := |exons|;
      var length := TotalLength(exons);
      rows := rows + [Row(tid, exonCount, length)];
      assert Summary(a)[..i + 1] == Summary(a)[..i] + [Summary(a)[i]];
    }
  }

  /**
   * The summary of a well-formed table has one row per transcript, its ids
   * listed once each and exactly the table's keys, in order; each row's
   * count is the transcript's number of intervals and its length their total.
   */
  lemma SummaryRows(a: Annotation)
    requires WellFormed(a)
    ensures var rows := Summary(a);
      |rows| == |a.exons| &&
      (forall k :: 0 <= k < |rows| ==> rows[k].transcriptId == a.order[k]) &&
      (forall t :: t in a.exons <==> exists k :: 0 <= k < |rows| && rows[k].transcriptId == t) &&
      (forall i, j :: 0 <= i < j < |rows| ==> rows[i].transcriptId != rows[j].transcriptId) &&
      (forall k :: 0 <= k < |rows| ==>
        rows[k].exonCount == |a.exons[a.order[k]]| >= 1 &&
        rows[k].length == TotalLength(a.exons[a.order[k]]))
  {
    var rows := Summary(a);
    DistinctKeysCount(a);
    SummaryRowsAt(a);
    forall t | t in a.exons
      ensures exists k :: 0 <= k < |rows| && rows[k].transcriptId == t
    {
      var k :| 0 <= k < |a.order| && a.order[k] == t;
      assert rows[k].transcriptId == t;
    }
  }

  /** Row `k` of the summary is the row of the `k`-th listed transcript. */
  lemma SummaryRowsAt(a: Annotation)
    requires Listed(a)
    ensures forall k :: 0 <= k < |a.order| ==>
      Summary(a)[k].transcriptId == a.order[k] &&
      Summary(a)[k].exonCount == |a.exons[a.order[k]]| &&
      Summary(a)[k].length == TotalLength(a.exons[a.order[k]])
  {
    forall k | 0 <= k < |a.order|
      ensures Summary(a)[k] == RowOf(a, a.order[k])
    {
    }
  }

  /** A well-formed table has as many keys as its key order has entries. */
  lemma DistinctKeysCount(a: Annotation)
    requires WellFormed(a)
    ensures |a.exons| == |a.order|
  {
    DistinctCard(a.order);
    assert a.exons.Keys == set t | t in a.order;
  }

  lemma {:induction false} DistinctCard(s: seq<string>)
    requires Distinct(s)
    ensures |set t | t in s| == |s|
    decreases |s|
  {
    if s != [] {
      var init := s[..|s| - 1];
      DistinctCard(init);
      assert (set t | t in s) == (set t | t in init) + {s[|s| - 1]};
      assert s[|s| - 1] !in init;
    }
  }

  /**
   * From the file: after a successful parse, the rows follow the first
   * appearance of each transcript among the accepted lines, and each row
   * counts and sums exactly its transcript's accepted exon lines.
   */
  lemma SummaryOfFile(lines: seq<string>)
    requires Parse(lines).Success?
    ensures var a, os := Parse(lines).value, Outcomes(lines);
      WellFormed(a) &&
      var rows := Summary(a);
      |rows| == |FirstOccurrences(AcceptedIds(os))| &&
      forall k :: 0 <= k < |rows| ==>
        rows[k].transcriptId == FirstOccurrences(AcceptedIds(os))[k] &&
        rows[k].exonCount == |ExonsOf(os, rows[k].transcriptId)| &&
        rows[k].length == TotalLength(ExonsOf(os, rows[k].transcriptId))
  {
    ParseContents(lines);
  }
}
