/**
 * `extract_filtered_gtf`: a second pass over the annotation lines that copies
 * every comment line and every line of at least nine fields whose attribute
 * field mentions `transcript_id "<tid>"` for a kept `tid`. The feature field
 * is not looked at.
 */
module FilteredGtf {
  import opened Wrappers
  import opened Text
  import opened Sequences
  import opened GtfParser

  /** The text searched for: `transcript_id "<tid>"`, closing quote included. */
  function Pattern(transcriptId: string): string {
    "transcript_id \"" + transcriptId + "\""
  }

  /**
   * Some kept transcript's pattern occurs in the attribute field; such a
   * field always contains the text `transcript_id`.
   */
  predicate MentionsKept(attributes: string, keep: set<string>): (b: bool)
    ensures b ==> Contains(attributes, "transcript_id")
  {
    PatternsImplyKey(attributes);
    exists tid :: tid in keep && Contains(attributes, Pattern(tid))
  }

  /**
   * Whether a line is written to the filtered annotation: a comment, or a
   * line of nine or more fields whose attribute field passes the
   * `transcript_id` pre-test and mentions a kept transcript.
   */
  predicate Selected(line: string, keep: set<string>): (b: bool)
    ensures b <==> (StartsWith(line, "#") ||
                    (|Fields(line)| >= 9 && Contains(Fields(line)[8], "transcript_id") &&
                     MentionsKept(Fields(line)[8], keep)))
  {
    StartsWith(line, "#") ||
    (var parts := Fields(line); |parts| >= 9 && MentionsKept(parts[8], keep))
  }

  /**
   * The filtered annotation: the selected lines, each written once, verbatim
   * and in input order.
   */
  function SelectLines(lines: seq<string>, keep: set<string>): (out: seq<string>)
    ensures IsSubsequence(out, lines)
    ensures forall k :: 0 <= k < |out| ==> Selected(out[k], keep)
    decreases |lines|
  {
    if lines == [] then []
    else
      var init := SelectLines(lines[..|lines| - 1], keep);
      var last := lines[|lines| - 1];
      if Selected(last, keep) then
        assert (init + [last])[..|init|] == init;
        init + [last]
      else init
  }

  /** Every selected line of the input is written. */
  lemma {:induction false} SelectLinesComplete(lines: seq<string>, keep: set<string>, k: nat)
    requires k < |lines| && Selected(lines[k], keep)
    ensures lines[k] in SelectLines(lines, keep)
    decreases |lines|
  {
    var init := lines[..|lines| - 1];
    if k < |lines| - 1 {
      assert init[k] == lines[k];
      SelectLinesComplete(init, keep, k);
    }
  }

  /** Lines are decided one at a time: selection distributes over concatenation. */
  lemma {:induction false} SelectLinesAppend(a: seq<string>, b: seq<string>, keep: set<string>)
    ensures SelectLines(a + b, keep) == SelectLines(a, keep) + SelectLines(b, keep)
    decreases |b|
  {
    if b == [] {
      assert a + b == a;
    } else {
      var b' := b[..|b| - 1];
      assert (a + b)[..|a + b| - 1] == a + b';
      SelectLinesAppend(a, b', keep);
    }
  }

  /**
   * One line yields itself exactly when it is selected and nothing otherwise,
   * so no line is written twice.
   */
  lemma SelectOne(line: string, keep: set<string>)
    ensures SelectLines([line], keep) == if Selected(line, keep) then [line] else []
  {
    assert [line][..0] == [];
  }

  /** Comment lines are always copied, whatever is kept. */
  lemma CommentsCopied(lines: seq<string>, keep: set<string>, k: nat)
    requires k < |lines| && StartsWith(lines[k], "#")
    ensures lines[k] in SelectLines(lines, keep)
  {
    SelectLinesComplete(lines, keep, k);
  }

  /** A non-comment line of fewer than nine fields is never copied. */
  lemma ShortLinesDropped(line: string, keep: set<string>)
    requires !StartsWith(line, "#") && |Fields(line)| < 9
    ensures !Selected(line, keep)
  {
  }

  /** The pre-test `'transcript_id' in attrs` never rejects a line the patterns accept. */
  lemma PatternImpliesKey(attributes: string, transcriptId: string)
    requires Contains(attributes, Pattern(transcriptId))
    ensures Contains(attributes, "transcript_id")
  {
    assert Pattern(transcriptId) == "transcript_id" + (" \"" + transcriptId + "\"");
    ContainsPrefixOfPattern(attributes, "transcript_id", " \"" + transcriptId + "\"");
  }

  lemma PatternsImplyKey(attributes: string)
    ensures forall tid :: Contains(attributes, Pattern(tid)) ==> Contains(attributes, "transcript_id")
  {
    forall tid | Contains(attributes, Pattern(tid))
      ensures Contains(attributes, "transcript_id")
    {
      PatternImpliesKey(attributes, tid);
    }
  }

  /** Without the text `transcript_id`, no kept transcript is mentioned. */
  lemma KeyAbsentMentionsNothing(attributes: string, keep: set<string>)
    requires !Contains(attributes, "transcript_id")
    ensures !MentionsKept(attributes, keep)
  {
    forall tid | tid in keep && Contains(attributes, Pattern(tid))
      ensures false
    {
      PatternImpliesKey(attributes, tid);
    }
  }

  /** The pattern for a transcript is its `transcript_id "<tid>"` item. */
  lemma PatternIsQuoted(transcriptId: string)
    ensures Pattern(transcriptId) == Quoted("transcript_id", transcriptId)
  {
  }

  /** In the field `transcript_id "<u>";` the only quotes are the two around `u`. */
  lemma QuotePositions(u: string, j: int)
    requires '"' !in u
    requires 0 <= j < |Quoted("transcript_id", u) + ";"|
    requires (Quoted("transcript_id", u) + ";")[j] == '"'
    ensures j == 14 || j == 15 + |u|
  {
    var key := "transcript_id";
    var f := Quoted(key, u) + ";";
    assert f == key + [' ', '"'] + u + ['"', ';'];
  }

  /**
   * The closing quote matters: with `t` kept, the field of a transcript
   * whose id merely starts with `t` (`T10` for `T1`) is not matched, while
   * the field naming `t` itself is.
   */
  lemma ClosingQuoteSeparatesIds(t: string, d: string)
    requires t != [] && d != [] && '"' !in t + d
    ensures !MentionsKept(Quoted("transcript_id", t + d) + ";", {t})
    ensures MentionsKept(Quoted("transcript_id", t) + ";", {t})
  {
    var u := t + d;
    var f := Quoted("transcript_id", u) + ";";
    var p := Pattern(t);
    PatternIsQuoted(t);
    assert '"' !in u;
    ContainsAt(f, p);
    assert |f| == |u| + 17 && |p| == |t| + 16;
    assert f[15 + |t|] == d[0] != p[15 + |t|];
    forall i | OccursAt(f, p, i)
      ensures false
    {
      QuotePositions(u, i + 14);
    }
    assert p <= Quoted("transcript_id", t) + ";";
  }

  /**
   * The match is on raw text, not on the parsed attribute: a line whose
   * `transcript_id` is `u` is still copied for a kept `t` when another
   * key ending in `transcript_id` names `t`.
   */
  lemma KeySuffixCollision(u: string, t: string)
    requires IsWord(u) && '"' !in u && ';' !in u
    requires IsWord(t) && '"' !in t && ';' !in t
    ensures var attributes := TwoPairField("transcript_id", u, "old_transcript_id", t);
      Attributes(SegmentsOf(attributes)) == Some(map["transcript_id" := u, "old_transcript_id" := t]) &&
      MentionsKept(attributes, {t})
  {
    TranscriptKeyIsWord();
    OldTranscriptKeyIsWord();
    TwoAttributes("transcript_id", u, "old_transcript_id", t);
    SuffixKeyMatches(u, t);
  }

  /** The two attribute keys are single words without a `;`. */
  lemma TranscriptKeyIsWord()
    ensures IsWord("transcript_id") && ';' !in "transcript_id"
  {
  }

  lemma OldTranscriptKeyIsWord()
    ensures IsWord("old_transcript_id") && ';' !in "old_transcript_id"
  {
  }

  lemma SuffixKeyMatches(u: string, t: string)
    ensures MentionsKept(TwoPairField("transcript_id", u, "old_transcript_id", t), {t})
  {
    var attributes := TwoPairField("transcript_id", u, "old_transcript_id", t);
    var a := Quoted("transcript_id", u);
    var p := Pattern(t);
    PatternIsQuoted(t);
    assert "old_transcript_id" == "old_" + "transcript_id";
    assert Quoted("old_transcript_id", t) == "old_" + p;
    assert attributes == a + "; old_" + p + ";";
    assert attributes[|a| + 6..|a| + 6 + |p|] == p;
    assert OccursAt(attributes, p, |a| + 6);
    ContainsAt(attributes, p);
  }

  /**
   * The match needs the quotes that `parse_gtf` strips: a transcript read
   * from an unquoted `transcript_id t;` field, even when kept, has none
   * of its lines copied.
   */
  lemma UnquotedIdNeverCopied(t: string)
    requires IsWord(t) && '"' !in t && ';' !in t
    ensures Attributes(SegmentsOf(UnquotedField("transcript_id", t))) == Some(map["transcript_id" := t])
    ensures !MentionsKept(UnquotedField("transcript_id", t), {t})
  {
    TranscriptKeyIsWord();
    OneUnquotedAttribute("transcript_id", t);
    UnquotedNoMatch(t);
  }

  lemma UnquotedNoMatch(t: string)
    ensures !MentionsKept(UnquotedField("transcript_id", t), {t})
  {
    assert |Pattern(t)| > |UnquotedField("transcript_id", t)|;
  }

  /** The inner loop: does any kept transcript's pattern occur in `attributes`? */
  method MentionsAnyKept(attributes: string, keep: set<string>) returns (found: bool)
    ensures found == MentionsKept(attributes, keep)
  {
    var pending := keep;
    found := false;
    while pending != {}
      invariant pending <= keep
      invariant forall tid :: tid in keep - pending ==> !Contains(attributes, Pattern(tid))
      decreases pending
    {
      var tid :| tid in pending;
      if Contains(attributes, Pattern(tid)) {
        found := true;
        break;
      }
      pending := pending - {tid};
    }
  }

  /** The body of the loop of `extract_filtered_gtf`: is this line written? */
  method LineWritten(line: string, keep: set<string>) returns (written: bool)
    ensures written == Selected(line, keep)
  {
    if StartsWith(line, "#") {
      return true;
    }
    var parts := Fields(line);
    if |parts| < 9 {
      return false;
    }
    var attrs := parts[8];
    if Contains(attrs, "transcript_id") {
      written := MentionsAnyKept(attrs, keep);
    } else {
      KeyAbsentMentionsNothing(attrs, keep);
      written := false;
    }
  }

  /** The loop of `extract_filtered_gtf`, writing the selected lines. */
  method ExtractFilteredGtf(lines: seq<string>, keep: set<string>) returns (out: seq<string>)
    ensures out == SelectLines(lines, keep)
  {
    out := [];
    for i := 0 to |lines|
      invariant out == SelectLines(lines[..i], keep)
    {
      var line := lines[i];
      assert lines[..i + 1][..i] == lines[..i];
      var written := LineWritten(line, keep);
      if written {
        out := out + [line];
      }
    }
    assert lines[..|lines|] == lines;
  }
}
