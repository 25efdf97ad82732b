/**
 * The data flow of the QC script without its file, plot and console I/O:
 * parse, summarise, filter by the thresholds, then select the annotation
 * lines of the kept transcripts from the same input lines.
 */
module QcPipeline {
  import opened Wrappers
  import opened Text
  import opened Sequences
  import opened GtfParser
  import opened TranscriptStats
  import opened TranscriptFilter
  import opened FilteredGtf

  /** What one run produces: the two printed counts, the summary table, the kept rows and the filtered annotation. */
  datatype Report = Report(
    transcriptCount: nat,
    geneCount: nat,
    summary: seq<Row>,
    kept: seq<Row>,
    filteredGtf: seq<string>)

  /** `set(filtered_df['transcript_id'])` */
  function KeptIds(kept: seq<Row>): (ids: set<string>)
    ensures forall k :: 0 <= k < |kept| ==> kept[k].transcriptId in ids
    ensures forall t :: t in ids ==> exists k :: 0 <= k < |kept| && kept[k].transcriptId == t
  {
    set r | r in kept :: r.transcriptId
  }

  /** One run over the annotation lines with the given thresholds. */
  function RunQc(lines: seq<string>, minLength: int, minExons: int): (r: Result<Report, ParseError>)
    ensures r.Failure? <==> Parse(lines).Failure?
    ensures r.Failure? ==> r.error == Parse(lines).error
    ensures r.Success? ==>
      |r.value.summary| == r.value.transcriptCount &&
      IsSubsequence(r.value.kept, r.value.summary) &&
      IsSubsequence(r.value.filteredGtf, lines)
  {
    match Parse(lines)
    case Failure(e) => Failure(e)
    case Success(a) =>
      ParseContents(lines);
      var rows := Summary(a);
      var kept := FilterTranscripts(rows, minLength, minExons);
      Success(Report(|a.order|, |a.genes|, rows, kept, SelectLines(lines, KeptIds(kept))))
  }

  /** A run fails exactly when some line has a bad coordinate or a malformed attribute. */
  lemma RunQcFails(lines: seq<string>, minLength: int, minExons: int)
    ensures RunQc(lines, minLength, minExons).Failure? <==>
      exists k :: 0 <= k < |lines| && IsFatal(Outcomes(lines)[k])
  {
    ParseFails(lines);
  }

  /**
   * No more transcripts are kept than exist, the kept rows keep table order,
   * and each passes both thresholds.
   */
  lemma RunQcKeptRows(lines: seq<string>, minLength: int, minExons: int)
    requires RunQc(lines, minLength, minExons).Success?
    ensures var r := RunQc(lines, minLength, minExons).value;
      |r.summary| == r.transcriptCount &&
      |r.kept| <= r.transcriptCount &&
      IsSubsequence(r.kept, r.summary) &&
      forall k :: 0 <= k < |r.kept| ==> r.kept[k].length >= minLength && r.kept[k].exonCount >= minExons
  {
    var r := RunQc(lines, minLength, minExons).value;
    SubsequenceLength(r.kept, r.summary);
  }

  /**
   * Every non-comment line of the filtered annotation mentions a transcript
   * whose summary row passes both thresholds.
   */
  lemma RunQcOutputLines(lines: seq<string>, minLength: int, minExons: int)
    requires RunQc(lines, minLength, minExons).Success?
    ensures var r := RunQc(lines, minLength, minExons).value;
      IsSubsequence(r.filteredGtf, lines) &&
      forall k :: 0 <= k < |r.filteredGtf| && !StartsWith(r.filteredGtf[k], "#") ==>
        var parts := Fields(r.filteredGtf[k]);
        |parts| >= 9 &&
        exists row :: row in r.kept && row in r.summary && Passes(row, minLength, minExons) &&
                      Contains(parts[8], Pattern(row.transcriptId))
  {
    var r := RunQc(lines, minLength, minExons).value;
    SubsequenceElements(r.kept, r.summary);
    forall k | 0 <= k < |r.filteredGtf| && !StartsWith(r.filteredGtf[k], "#")
      ensures var parts := Fields(r.filteredGtf[k]);
        |parts| >= 9 &&
        exists row :: row in r.kept && row in r.summary && Passes(row, minLength, minExons) &&
                      Contains(parts[8], Pattern(row.transcriptId))
    {
      var parts := Fields(r.filteredGtf[k]);
      assert Selected(r.filteredGtf[k], KeptIds(r.kept));
      var tid :| tid in KeptIds(r.kept) && Contains(parts[8], Pattern(tid));
      var row :| row in r.kept && row.transcriptId == tid;
      var i :| 0 <= i < |r.kept| && r.kept[i] == row;
      assert Passes(r.kept[i], minLength, minExons);
    }
  }

  /**
   * A file without a single accepted exon line: no transcripts, no genes,
   * an empty summary, nothing kept, and the filtered annotation is the
   * comment lines alone.
   */
  lemma RunQcWithoutExons(lines: seq<string>, minLength: int, minExons: int)
    requires forall k :: 0 <= k < |lines| ==> !IsFatal(Outcomes(lines)[k]) && !Outcomes(lines)[k].Accepted?
    ensures RunQc(lines, minLength, minExons).Success?
    ensures var r := RunQc(lines, minLength, minExons).value;
      r.transcriptCount == 0 && r.geneCount == 0 && r.summary == [] && r.kept == [] &&
      IsSubsequence(r.filteredGtf, lines) &&
      (forall k :: 0 <= k < |r.filteredGtf| ==> StartsWith(r.filteredGtf[k], "#")) &&
      (forall k :: 0 <= k < |lines| && StartsWith(lines[k], "#") ==> lines[k] in r.filteredGtf)
  {
    var os := Outcomes(lines);
    AccumulateFailsAtFirstFatal(os);
    NoAcceptedIds(os);
    ParseContents(lines);
    var a := Parse(lines).value;
    assert GenesOf(os) == {};
    assert a.order == [];
    var r := RunQc(lines, minLength, minExons).value;
    assert KeptIds(r.kept) == {};
    SelectNothingKept(lines);
  }

  /** With no transcript kept, exactly the comment lines are selected. */
  lemma SelectNothingKept(lines: seq<string>)
    ensures forall k :: 0 <= k < |SelectLines(lines, {})| ==> StartsWith(SelectLines(lines, {})[k], "#")
    ensures forall k :: 0 <= k < |lines| && StartsWith(lines[k], "#") ==> lines[k] in SelectLines(lines, {})
  {
    var out := SelectLines(lines, {});
    forall k | 0 <= k < |out|
      ensures StartsWith(out[k], "#")
    {
      assert Selected(out[k], {});
    }
    forall k | 0 <= k < |lines| && StartsWith(lines[k], "#")
      ensures lines[k] in out
    {
      CommentsCopied(lines, {}, k);
    }
  }

  lemma {:induction false} NoAcceptedIds(os: seq<LineOutcome>)
    requires forall k :: 0 <= k < |os| ==> !os[k].Accepted?
    ensures AcceptedIds(os) == []
    decreases |os|
  {
    if os != [] {
      NoAcceptedIds(os[..|os| - 1]);
    }
  }

  /**
   * Two transcripts, `A` with exons (1,100) and (201,300) and `B` with the
   * exon (1,50), at the default thresholds: two summary rows, and only `A`
   * kept (its length 200 and exon count 2 sit exactly on the bounds).
   */
  lemma TwoTranscriptScenario()
    ensures var a := Annotation(["A", "B"],
                                map["A" := [Interval(1, 100), Interval(201, 300)], "B" := [Interval(1, 50)]],
                                {"gA", "gB"});
      Listed(a) &&
      Summary(a) == [Row("A", 2, 200), Row("B", 1, 50)] &&
      FilterTranscripts(Summary(a), DefaultMinLength, DefaultMinExons) == [Row("A", 2, 200)]
  {
    var a := Annotation(["A", "B"],
                        map["A" := [Interval(1, 100), Interval(201, 300)], "B" := [Interval(1, 50)]],
                        {"gA", "gB"});
    assert TotalLength([Interval(201, 300)]) == 100;
    assert TotalLength([Interval(1, 100), Interval(201, 300)]) == 200;
    assert TotalLength([Interval(1, 50)]) == 50;
    var rows := Summary(a);
    assert rows == [Row("A", 2, 200), Row("B", 1, 50)];
    assert rows[..1] == [Row("A", 2, 200)];
    assert rows[..1][..0] == [];
  }
}
