/**
 * `parse_gtf`: reads annotation lines one at a time, keeps the exon lines
 * that name both a gene and a transcript, and groups their intervals by
 * transcript in first-appearance order, collecting the gene ids on the way.
 * A non-integer coordinate or a malformed attribute segment aborts the parse.
 */
module GtfParser {
  import opened Wrappers
  import opened Text
  import opened Sequences

  /** One exon's `(start, end)` pair, 1-based and inclusive, as written in the file. */
  datatype Interval = Interval(start: int, end: int)

  /** What parsing one line of the annotation does. */
  datatype LineOutcome =
    | Comment          // starts with '#'
    | TooFewFields     // fewer than 9 tab-separated fields after stripping
    | NotExon          // feature field other than "exon"
    | BadCoordinate    // start or end is not an integer: fatal
    | BadAttribute     // an attribute segment is not `key value`: fatal
    | Unassigned       // an exon without a non-empty gene_id and transcript_id
    | Accepted(geneId: string, transcriptId: string, exon: Interval)

  /** The run-ending error, with the index of the line that caused it. */
  datatype ParseError =
    | CoordinateNotInteger(line: nat)
    | MalformedAttribute(line: nat)

  predicate IsFatal(o: LineOutcome) {
    o.BadCoordinate? || o.BadAttribute?
  }

  // ---------------------------------------------------------------------
  // attributes

  /** One `;`-separated piece of the attribute field. */
  datatype Segment = Blank | Pair(key: string, value: string) | Malformed

  /** The fields of a line: `line.strip().split('\t')`. */
  function Fields(line: string): (parts: seq<string>)
    ensures |parts| >= 1
    ensures forall k :: 0 <= k < |parts| ==> Tab !in parts[k]
  {
    Split(Strip(line), Tab)
  }

  /** `attributes.strip().split(';')` */
  function Segments(attributes: string): (pieces: seq<string>)
    ensures |pieces| >= 1
    ensures forall k :: 0 <= k < |pieces| ==> ';' !in pieces[k]
  {
    Split(Strip(attributes), ';')
  }

  /** `"value"` becomes `value`; every leading and trailing quote goes. */
  function Unquote(value: string): (r: string)
    ensures r != [] ==> r[0] != '"' && r[|r| - 1] != '"'
  {
    Trim(value, {'"'})
  }

  /**
   * A segment is blank once stripped, or splits into exactly two
   * whitespace-separated tokens `key value`, or is malformed.
   */
  function ParseSegment(segment: string): (r: Segment)
    ensures r.Pair? ==> IsWord(r.key)
    ensures r.Pair? ==> r.value != [] ==> r.value[0] != '"' && r.value[|r.value| - 1] != '"'
  {
    var item := Strip(segment);
    if item == [] then Blank
    else
      var tokens := Words(item);
      if |tokens| == 2 then Pair(tokens[0], Unquote(tokens[1])) else Malformed
  }

  /** Each segment of the attribute field, parsed. */
  function SegmentsOf(attributes: string): (ss: seq<Segment>)
    ensures |ss| == |Segments(attributes)|
  {
    var segments := Segments(attributes);
    seq(|segments|, k requires 0 <= k < |segments| => ParseSegment(segments[k]))
  }

  /** The attribute dictionary filled from parsed segments, or None on a malformed one. */
  function Attributes(ss: seq<Segment>): (r: Option<map<string, string>>)
    ensures r.Some? ==> |r.value| <= |ss|
    decreases |ss|
  {
    if ss == [] then Some(map[])
    else
      match Attributes(ss[..|ss| - 1])
      case None => None
      case Some(m) =>
        match ss[|ss| - 1]
        case Blank => Some(m)
        case Malformed => None
        case Pair(k, v) => Some(m[k := v])
  }

  /**
   * A piece that is blank once stripped is skipped wherever it stands: the
   * dictionary, or the failure, is what the other pieces give.
   */
  lemma {:induction false} BlankPieceSkipped(before: seq<Segment>, piece: string, after: seq<Segment>)
    requires Strip(piece) == []
    ensures Attributes(before + [ParseSegment(piece)] + after) == Attributes(before + after)
    decreases |after|
  {
    var all, rest := before + [ParseSegment(piece)] + after, before + after;
    if after == [] {
      assert all[..|all| - 1] == before && all[|all| - 1] == Blank;
      assert rest == before;
    } else {
      var init := after[..|after| - 1];
      BlankPieceSkipped(before, piece, init);
      assert all[..|all| - 1] == before + [ParseSegment(piece)] + init;
      assert rest[..|rest| - 1] == before + init;
      assert all[|all| - 1] == rest[|rest| - 1];
    }
  }

  /**
   * Which kind a piece is: blank exactly when it strips to nothing, a pair
   * exactly when it is two whitespace-separated tokens (the key, and the
   * value with its quotes stripped), and malformed otherwise.
   */
  lemma SegmentKinds(segment: string)
    ensures ParseSegment(segment) == Blank <==> Strip(segment) == []
    ensures ParseSegment(segment) == Malformed <==> Strip(segment) != [] && |Words(Strip(segment))| != 2
    ensures ParseSegment(segment).Pair? <==> Strip(segment) != [] && |Words(Strip(segment))| == 2
    ensures ParseSegment(segment).Pair? ==>
      var tokens := Words(Strip(segment));
      ParseSegment(segment) == Pair(tokens[0], Unquote(tokens[1]))
  {
  }

  lemma {:induction false} AttributesNoneExtends(ss: seq<Segment>, i: nat)
    requires i <= |ss|
    requires Attributes(ss[..i]) == None
    ensures Attributes(ss) == None
    decreases |ss| - i
  {
    if i < |ss| {
      assert ss[..i + 1][..i] == ss[..i];
      AttributesNoneExtends(ss, i + 1);
    } else {
      assert ss[..i] == ss;
    }
  }

  /** Attribute parsing fails exactly when some segment is malformed. */
  lemma {:induction false} AttributesFail(ss: seq<Segment>)
    ensures Attributes(ss) == None <==> exists i :: 0 <= i < |ss| && ss[i].Malformed?
    decreases |ss|
  {
    if ss != [] {
      var init := ss[..|ss| - 1];
      AttributesFail(init);
      if exists i :: 0 <= i < |init| && init[i].Malformed? {
        var i :| 0 <= i < |init| && init[i].Malformed?;
        assert ss[i] == init[i];
      }
      if exists i :: 0 <= i < |ss| && ss[i].Malformed? {
        var i :| 0 <= i < |ss| && ss[i].Malformed?;
        if i < |init| {
          assert init[i] == ss[i];
        }
      }
    }
  }

  /** The segment is a `key value` pair for `key`. */
  predicate CarriesKey(segment: Segment, key: string) {
    segment.Pair? && segment.key == key
  }

  /** Segment `i` is the last one carrying `key`. */
  ghost predicate LastCarrying(ss: seq<Segment>, key: string, i: int) {
    0 <= i < |ss| && CarriesKey(ss[i], key) &&
    forall j :: i < j < |ss| ==> !CarriesKey(ss[j], key)
  }

  /** On success, a key is in the dictionary exactly when some segment carries it. */
  lemma {:induction false} AttributesKeys(ss: seq<Segment>, key: string)
    requires Attributes(ss).Some?
    ensures key in Attributes(ss).value <==> exists i :: 0 <= i < |ss| && CarriesKey(ss[i], key)
    decreases |ss|
  {
    if ss != [] {
      var n := |ss| - 1;
      var init := ss[..n];
      AttributesKeys(init, key);
      if exists i :: 0 <= i < |init| && CarriesKey(init[i], key) {
        var i :| 0 <= i < |init| && CarriesKey(init[i], key);
        assert ss[i] == init[i];
      }
      if exists i :: 0 <= i < |ss| && CarriesKey(ss[i], key) {
        var i :| 0 <= i < |ss| && CarriesKey(ss[i], key);
        if i < n {
          assert ss[i] == init[i];
        }
      }
    }
  }

  /** When a key repeats, the value of its last segment is the one kept. */
  lemma {:induction false} AttributesLastWins(ss: seq<Segment>, key: string)
    requires Attributes(ss).Some?
    requires key in Attributes(ss).value
    ensures exists i :: LastCarrying(ss, key, i) && ss[i].value == Attributes(ss).value[key]
    decreases |ss|
  {
    var n := |ss| - 1;
    var init := ss[..n];
    var m := Attributes(ss).value;
    var last := ss[n];
    if CarriesKey(last, key) {
      assert LastCarrying(ss, key, n);
    } else {
      var m' := Attributes(init).value;
      assert m == m' || (last.Pair? && m == m'[last.key := last.value]);
      AttributesLastWins(init, key);
      var i :| LastCarrying(init, key, i) && init[i].value == m'[key];
      assert ss[i] == init[i];
      forall j | i < j < |ss|
        ensures !CarriesKey(ss[j], key)
      {
        if j < n {
          assert ss[j] == init[j];
        }
      }
      assert LastCarrying(ss, key, i);
    }
  }

  /** Every value in the dictionary has its surrounding quotes stripped. */
  lemma AttributeValuesUnquoted(attributes: string, key: string)
    requires Attributes(SegmentsOf(attributes)).Some?
    requires key in Attributes(SegmentsOf(attributes)).value
    ensures var v := Attributes(SegmentsOf(attributes)).value[key];
      v != [] ==> v[0] != '"' && v[|v| - 1] != '"'
  {
    var ss := SegmentsOf(attributes);
    AttributesLastWins(ss, key);
    var i :| LastCarrying(ss, key, i) && ss[i].value == Attributes(ss).value[key];
    assert ss[i] == ParseSegment(Segments(attributes)[i]);
  }

  /** The item `key "value"` as annotation files write it. */
  function Quoted(key: string, value: string): string {
    key + [' '] + (['"'] + value + ['"'])
  }

  lemma QuotedShape(key: string, value: string)
    requires key != [] && ';' !in key + value
    ensures Quoted(key, value) != [] && Quoted(key, value)[0] == key[0]
    ensures ';' !in Quoted(key, value)
  {
    assert forall c :: c in Quoted(key, value) ==> c in key + value || c == ' ' || c == '"';
  }

  /**
   * A segment `key "value"` with at most one leading space parses to that
   * key and the unquoted value.
   */
  lemma QuotedSegment(pad: string, key: string, value: string)
    requires pad == [] || pad == [' ']
    requires IsWord(key) && IsWord(value) && '"' !in value
    ensures ParseSegment(pad + Quoted(key, value)) == Pair(key, value)
  {
    var quoted := ['"'] + value + ['"'];
    var item := key + [' '] + quoted;
    UnquoteQuoted(value);
    StripPadded(pad, item);
    WordsOfPair(key, quoted);
    var segment := pad + item;
    assert Strip(segment) == item && Words(item) == [key, quoted];
    assert ParseSegment(segment) == Pair(key, Unquote(quoted));
  }

  lemma StripPadded(pad: string, item: string)
    requires pad == [] || pad == [' ']
    requires item != [] && item[0] !in Whitespace && item[|item| - 1] !in Whitespace
    ensures Strip(pad + item) == item
  {
    TrimUnchanged(item, Whitespace);
    if pad != [] {
      assert (pad + item)[1..] == item;
    }
  }

  lemma WordsOfPair(a: string, b: string)
    requires IsWord(a) && IsWord(b)
    ensures Words(a + [' '] + b) == [a, b]
  {
    assert [a, b][..1] == [a];
    assert Join([a], ' ') == a;
    assert Unwords([a, b]) == a + [' '] + b;
    WordsUnwords([a, b]);
  }

  lemma UnquoteQuoted(value: string)
    requires IsWord(value) && '"' !in value
    ensures IsWord(['"'] + value + ['"'])
    ensures Unquote(['"'] + value + ['"']) == value
  {
    var quoted := ['"'] + value + ['"'];
    assert quoted[1..] == value + ['"'];
    assert (value + ['"'])[..|value|] == value;
    TrimUnchanged(value, {'"'});
  }

  /** The attribute field `k1 "v1"; k2 "v2";` as annotation files write it. */
  function TwoPairField(k1: string, v1: string, k2: string, v2: string): string {
    Quoted(k1, v1) + "; " + Quoted(k2, v2) + ";"
  }

  /** The attribute field `k1 "v1"; k2 "v2";` holds both pairs, the later one winning a shared key. */
  lemma TwoAttributes(k1: string, v1: string, k2: string, v2: string)
    requires IsWord(k1) && IsWord(v1) && '"' !in v1 && ';' !in k1 + v1
    requires IsWord(k2) && IsWord(v2) && '"' !in v2 && ';' !in k2 + v2
    ensures Attributes(SegmentsOf(TwoPairField(k1, v1, k2, v2))) == Some(map[k1 := v1][k2 := v2])
  {
    var a := Quoted(k1, v1);
    var b := [' '] + Quoted(k2, v2);
    var s := TwoPairField(k1, v1, k2, v2);
    QuotedShape(k1, v1);
    QuotedShape(k2, v2);
    assert s == a + ";" + b + ";";
    TwoSegments(a, b);
    QuotedSegment([], k1, v1);
    assert [] + a == a;
    QuotedSegment([' '], k2, v2);
    SegmentsOfThree(s, a, b);
    AttributesOfPairs(k1, v1, k2, v2);
  }

  lemma SegmentsOfThree(s: string, a: string, b: string)
    requires Segments(s) == [a, b, ""]
    ensures SegmentsOf(s) == [ParseSegment(a), ParseSegment(b), Blank]
  {
    EmptySegmentBlank();
  }

  lemma EmptySegmentBlank()
    ensures ParseSegment("") == Blank
  {
    assert Strip("") == [];
  }

  lemma AttributesOfPairs(k1: string, v1: string, k2: string, v2: string)
    ensures Attributes([Pair(k1, v1), Pair(k2, v2), Blank]) == Some(map[k1 := v1][k2 := v2])
  {
    var ss := [Pair(k1, v1), Pair(k2, v2), Blank];
    var s2 := ss[..2];
    var s1 := s2[..1];
    assert s1[..0] == [];
    assert Attributes(s1) == Some(map[k1 := v1]);
    assert Attributes(s2) == Some(map[k1 := v1][k2 := v2]);
  }

  lemma TwoSegments(a: string, b: string)
    requires a != [] && a[0] !in Whitespace && ';' !in a && ';' !in b
    ensures Segments(a + ";" + b + ";") == [a, b, ""]
  {
    var s := a + ";" + b + ";";
    assert s[0] == a[0] && s[|s| - 1] == ';';
    TrimUnchanged(s, Whitespace);
    var parts := [a, b, ""];
    assert Join(parts, ';') == s by {
      assert parts[..2] == [a, b] && [a, b][..1] == [a];
      assert Join([a], ';') == a;
      assert Join([a, b], ';') == a + [';'] + b;
    }
    SplitJoin(parts, ';');
  }

  /** The attribute field `k v;`, its value written without quotes. */
  function UnquotedField(k: string, v: string): string {
    k + " " + v + ";"
  }

  /** An unquoted `k v;` field holds the one pair `k: v`. */
  lemma OneUnquotedAttribute(k: string, v: string)
    requires IsWord(k) && IsWord(v) && '"' !in v && ';' !in k + v
    ensures Attributes(SegmentsOf(UnquotedField(k, v))) == Some(map[k := v])
  {
    var item := k + [' '] + v;
    var s := UnquotedField(k, v);
    assert Segments(s) == [item, ""] by {
      assert s == item + ";";
      OneField(item);
    }
    assert ParseSegment(item) == Pair(k, v) by {
      OneSegment(k, v);
    }
    AttributesOfTwo(s, item, k, v);
  }

  lemma OneField(item: string)
    requires item != [] && item[0] !in Whitespace && ';' !in item
    ensures Segments(item + ";") == [item, ""]
  {
    var s := item + ";";
    assert s[0] == item[0] && s[|s| - 1] == ';';
    TrimUnchanged(s, Whitespace);
    assert [item, ""][..1] == [item];
    assert Join([item, ""], ';') == s;
    SplitJoin([item, ""], ';');
  }

  lemma AttributesOfTwo(s: string, a: string, k: string, v: string)
    requires Segments(s) == [a, ""] && ParseSegment(a) == Pair(k, v)
    ensures Attributes(SegmentsOf(s)) == Some(map[k := v])
  {
    var ss := SegmentsOf(s);
    assert ss[0] == Pair(k, v) && ss[1] == ParseSegment("") == Blank;
    assert Attributes(ss[..1]) == Some(map[k := v]) by {
      assert ss[..1][..0] == [];
    }
  }

  lemma OneSegment(k: string, v: string)
    requires IsWord(k) && IsWord(v) && '"' !in v
    ensures ParseSegment(k + [' '] + v) == Pair(k, v)
  {
    var item := k + [' '] + v;
    StripPadded([], item);
    assert [] + item == item;
    WordsOfPair(k, v);
    TrimUnchanged(v, {'"'});
  }

  /** One turn of the attribute loop: a blank segment keeps the dictionary, a pair sets its key, a malformed one fails the whole field. */
  lemma AttributesLoopStep(ss: seq<Segment>, i: nat, attrs: map<string, string>)
    requires i < |ss| && Attributes(ss[..i]) == Some(attrs)
    ensures ss[i].Blank? ==> Attributes(ss[..i + 1]) == Some(attrs)
    ensures ss[i].Pair? ==> Attributes(ss[..i + 1]) == Some(attrs[ss[i].key := ss[i].value])
    ensures ss[i].Malformed? ==> Attributes(ss) == None
  {
    assert ss[..i + 1][..i] == ss[..i];
    if ss[i].Malformed? {
      AttributesNoneExtends(ss, i + 1);
    }
  }

  /** The same turn, stated on the raw segment the loop parses. */
  lemma AttributesTurn(attributes: string, i: nat, attrs: map<string, string>)
    requires i < |Segments(attributes)|
    requires Attributes(SegmentsOf(attributes)[..i]) == Some(attrs)
    ensures ParseSegment(Segments(attributes)[i]).Blank? ==>
              Attributes(SegmentsOf(attributes)[..i + 1]) == Some(attrs)
    ensures ParseSegment(Segments(attributes)[i]).Pair? ==>
              Attributes(SegmentsOf(attributes)[..i + 1]) ==
              Some(attrs[ParseSegment(Segments(attributes)[i]).key := ParseSegment(Segments(attributes)[i]).value])
    ensures ParseSegment(Segments(attributes)[i]).Malformed? ==> Attributes(SegmentsOf(attributes)) == None
  {
    var ss := SegmentsOf(attributes);
    assert ss[i] == ParseSegment(Segments(attributes)[i]);
    AttributesLoopStep(ss, i, attrs);
  }

  /** The attribute loop of `parse_gtf`: fills the dictionary segment by segment. */
  method ParseAttributes(attributes: string) returns (r: Option<map<string, string>>)
    ensures r == Attributes(SegmentsOf(attributes))
  {
    var segments := Segments(attributes);
    var attrs: map<string, string> := map[];
    for i := 0 to |segments|
      invariant Attributes(SegmentsOf(attributes)[..i]) == Some(attrs)
    {
      AttributesTurn(attributes, i, attrs);
      match ParseSegment(segments[i])
      case Blank =>
      case Malformed =>
        return None;
      case Pair(k, v) =>
        attrs := attrs[k := v];
    }
    assert SegmentsOf(attributes)[..|segments|] == SegmentsOf(attributes);
    r := Some(attrs);
  }

  // ---------------------------------------------------------------------
  // one line

  /** `attr_dict.get(key)` is truthy: present and non-empty. */
  predicate HasValue(attrs: map<string, string>, key: string) {
    key in attrs && attrs[key] != []
  }

  /** The decision `parse_gtf` takes for one line. */
  function Classify(line: string): (o: LineOutcome)
    ensures o == Comment <==> StartsWith(line, "#")
    ensures IsFatal(o) || o.Accepted? || o == Unassigned ==>
              !StartsWith(line, "#") && |Fields(line)| >= 9 && Fields(line)[2] == "exon"
    ensures o.Accepted? ==> o.geneId != [] && o.transcriptId != []
  {
    if StartsWith(line, "#") then Comment
    else
      var parts := Fields(line);
      if |parts| < 9 then TooFewFields
      else if parts[2] != "exon" then NotExon
      else
        match (ParseInt(parts[3]), ParseInt(parts[4]))
        case (Some(s), Some(e)) =>
          (match Attributes(SegmentsOf(parts[8]))
           case None => BadAttribute
           case Some(attrs) =>
             if HasValue(attrs, "gene_id") && HasValue(attrs, "transcript_id")
             then Accepted(attrs["gene_id"], attrs["transcript_id"], Interval(s, e))
             else Unassigned)
        case _ => BadCoordinate
  }

  /**
   * An accepted line names a non-empty gene and transcript, both taken from
   * the attribute field, and the interval is the line's two coordinates.
   */
  lemma AcceptedLine(line: string)
    requires Classify(line).Accepted?
    ensures var o, parts := Classify(line), Fields(line);
      !StartsWith(line, "#") && |parts| >= 9 && parts[2] == "exon" &&
      ParseInt(parts[3]) == Some(o.exon.start) && ParseInt(parts[4]) == Some(o.exon.end) &&
      Attributes(SegmentsOf(parts[8])).Some? &&
      Attributes(SegmentsOf(parts[8])).value["gene_id"] == o.geneId != [] &&
      Attributes(SegmentsOf(parts[8])).value["transcript_id"] == o.transcriptId != []
  {
  }

  /** The body of the loop in `parse_gtf` up to the accumulation, for line `i`. */
  method ReadLine(lines: seq<string>, i: nat) returns (o: LineOutcome)
    requires i < |lines|
    ensures o == Outcomes(lines)[i]
  {
    OutcomesAt(lines, i);
    var line := lines[i];
    if StartsWith(line, "#") {
      return Comment;
    }
    var parts := Fields(line);
    if |parts| < 9 || parts[2] != "exon" {
      return if |parts| < 9 then TooFewFields else NotExon;
    }
    var start, end := ParseInt(parts[3]), ParseInt(parts[4]);
    if start.None? || end.None? {
      return BadCoordinate;
    }
    var attrs := ParseAttributes(parts[8]);
    if attrs.None? {
      return BadAttribute;
    }
    var a := attrs.value;
    if HasValue(a, "gene_id") && HasValue(a, "transcript_id") {
      o := Accepted(a["gene_id"], a["transcript_id"], Interval(start.value, end.value));
    } else {
      o := Unassigned;
    }
  }

  // ---------------------------------------------------------------------
  // accumulation

  /**
   * The pair `(transcripts, genes)` returned by `parse_gtf`. The insertion
   * ordered `defaultdict(list)` is the key order `order` plus the map `exons`.
   */
  datatype Annotation = Annotation(order: seq<string>, exons: map<string, seq<Interval>>, genes: set<string>)

  const Empty: Annotation := Annotation([], map[], {})

  /** Keys listed once each, exactly the map's keys, and no empty interval list. */
  ghost predicate WellFormed(a: Annotation) {
    Distinct(a.order) &&
    (forall t :: t in a.exons <==> t in a.order) &&
    (forall t :: t in a.exons ==> a.exons[t] != [])
  }

  /** `transcripts[tid].append(exon)` and `genes.add(gene)`. */
  function AddExon(a: Annotation, geneId: string, transcriptId: string, exon: Interval): (b: Annotation)
    ensures b.exons.Keys == a.exons.Keys + {transcriptId}
    ensures b.exons[transcriptId] == (if transcriptId in a.exons then a.exons[transcriptId] else []) + [exon]
    ensures forall t :: t in a.exons && t != transcriptId ==> b.exons[t] == a.exons[t]
    ensures b.genes == a.genes + {geneId}
    ensures b.order == if transcriptId in a.exons then a.order else a.order + [transcriptId]
  {
    var existing := if transcriptId in a.exons then a.exons[transcriptId] else [];
    Annotation(
      if transcriptId in a.exons then a.order else a.order + [transcriptId],
      a.exons[transcriptId := existing + [exon]],
      a.genes + {geneId})
  }

  /** The outcome of every line of the file. */
  function Outcomes(lines: seq<string>): (os: seq<LineOutcome>)
    ensures |os| == |lines|
    decreases |lines|
  {
    if lines == [] then [] else Outcomes(lines[..|lines| - 1]) + [Classify(lines[|lines| - 1])]
  }

  lemma {:induction false} OutcomesAt(lines: seq<string>, k: nat)
    requires k < |lines|
    ensures Outcomes(lines)[k] == Classify(lines[k])
    decreases |lines|
  {
    var init := lines[..|lines| - 1];
    assert Outcomes(lines) == Outcomes(init) + [Classify(lines[|lines| - 1])];
    if k < |lines| - 1 {
      OutcomesAt(init, k);
      assert init[k] == lines[k];
    }
  }

  lemma OutcomesSnoc(lines: seq<string>, line: string)
    ensures Outcomes(lines + [line]) == Outcomes(lines) + [Classify(line)]
  {
    var all := lines + [line];
    assert forall k :: 0 <= k < |lines| ==> all[k] == lines[k];
  }

  lemma {:induction false} OutcomesPrefix(lines: seq<string>, i: nat)
    requires i <= |lines|
    ensures Outcomes(lines[..i]) == Outcomes(lines)[..i]
    decreases |lines|
  {
    if i < |lines| {
      var init := lines[..|lines| - 1];
      OutcomesPrefix(init, i);
      assert init[..i] == lines[..i];
    } else {
      assert lines[..i] == lines;
    }
  }

  /** Appending an exon keeps every key listed once and every list non-empty. */
  lemma AddExonWellFormed(a: Annotation, geneId: string, transcriptId: string, exon: Interval)
    requires WellFormed(a)
    ensures WellFormed(AddExon(a, geneId, transcriptId, exon))
  {
  }

  /** The effect of the line with index `index` once it is classified. */
  function Step(a: Annotation, o: LineOutcome, index: nat): (r: Result<Annotation, ParseError>)
    ensures r.Failure? <==> IsFatal(o)
    ensures r.Failure? ==> r.error.line == index
    ensures r.Success? && !o.Accepted? ==> r.value == a
  {
    match o
    case BadCoordinate => Failure(CoordinateNotInteger(index))
    case BadAttribute => Failure(MalformedAttribute(index))
    case Accepted(g, t, iv) => Success(AddExon(a, g, t, iv))
    case _ => Success(a)
  }

  /** The accumulation of `parse_gtf` over classified lines, stopping at the first fatal one. */
  function Accumulate(os: seq<LineOutcome>): (r: Result<Annotation, ParseError>)
    ensures r.Failure? ==> r.error.line < |os| && IsFatal(os[r.error.line])
    decreases |os|
  {
    if os == [] then Success(Empty)
    else
      var n := |os| - 1;
      match Accumulate(os[..n])
      case Failure(e) => Failure(e)
      case Success(a) => Step(a, os[n], n)
  }

  /** `parse_gtf` over the lines of the file. */
  function Parse(lines: seq<string>): (r: Result<Annotation, ParseError>)
    ensures r.Failure? ==> r.error.line < |lines|
  {
    Accumulate(Outcomes(lines))
  }

  /** The imperative `parse_gtf`: one pass, accumulating in place, aborting on a fatal line. */
  method ParseGtf(lines: seq<string>) returns (r: Result<Annotation, ParseError>)
    ensures r == Parse(lines)
  {
    ghost var os := Outcomes(lines);
    var order: seq<string> := [];
    var transcripts: map<string, seq<Interval>> := map[];
    var genes: set<string> := {};
    for i := 0 to |lines|
      invariant Accumulate(os[..i]) == Success(Annotation(order, transcripts, genes))
    {
      var o := ReadLine(lines, i);
      AccumulateNext(os, i, Annotation(order, transcripts, genes));
      if o.BadCoordinate? {
        AccumulateFailureExtends(os, i + 1);
        return Failure(CoordinateNotInteger(i));
      } else if o.BadAttribute? {
        AccumulateFailureExtends(os, i + 1);
        return Failure(MalformedAttribute(i));
      }
      order, transcripts, genes := Absorb(order, transcripts, genes, o, i);
    }
    assert os[..|lines|] == os;
    r := Success(Annotation(order, transcripts, genes));
  }

  /** Whatever the lines, a successful accumulation is well formed. */
  lemma {:induction false} AccumulateWellFormed(os: seq<LineOutcome>)
    requires Accumulate(os).Success?
    ensures WellFormed(Accumulate(os).value)
    decreases |os|
  {
    if os != [] {
      var n := |os| - 1;
      AccumulateWellFormed(os[..n]);
      StepWellFormed(Accumulate(os[..n]).value, os[n], n);
    }
  }

  /** One successful step keeps the table well formed. */
  lemma StepWellFormed(a: Annotation, o: LineOutcome, index: nat)
    requires WellFormed(a) && Step(a, o, index).Success?
    ensures WellFormed(Step(a, o, index).value)
  {
    if o.Accepted? {
      AddExonWellFormed(a, o.geneId, o.transcriptId, o.exon);
    }
  }

  /**
   * The accumulation half of the loop body of `parse_gtf`: for an accepted
   * line, `transcripts[transcript_id].append((start, end))` (creating the
   * list on first sight) and `genes.add(gene_id)`; any other line changes nothing.
   */
  method Absorb(order: seq<string>, transcripts: map<string, seq<Interval>>, genes: set<string>,
                o: LineOutcome, ghost index: nat)
    returns (order': seq<string>, transcripts': map<string, seq<Interval>>, genes': set<string>)
    requires !IsFatal(o)
    ensures Step(Annotation(order, transcripts, genes), o, index) == Success(Annotation(order', transcripts', genes'))
  {
    order', transcripts', genes' := order, transcripts, genes;
    if o.Accepted? {
      var t := o.transcriptId;
      if t !in transcripts' {
        order' := order' + [t];
        transcripts' := transcripts'[t := []];
      }
      transcripts' := transcripts'[t := transcripts'[t] + [o.exon]];
      genes' := genes' + {o.geneId};
      assert transcripts' == transcripts[t := (if t in transcripts then transcripts[t] else []) + [o.exon]];
    }
  }

  /** One more classified line is one more step. */
  lemma AccumulateNext(os: seq<LineOutcome>, i: nat, a: Annotation)
    requires i < |os| && Accumulate(os[..i]) == Success(a)
    ensures Accumulate(os[..i + 1]) == Step(a, os[i], i)
  {
    assert os[..i + 1][..i] == os[..i];
  }

  /** Once a prefix fails, the whole accumulation fails with the same error. */
  lemma {:induction false} AccumulateFailureExtends(os: seq<LineOutcome>, i: nat)
    requires i <= |os|
    requires Accumulate(os[..i]).Failure?
    ensures Accumulate(os) == Accumulate(os[..i])
    decreases |os| - i
  {
    if i < |os| {
      assert os[..i + 1][..i] == os[..i];
      AccumulateFailureExtends(os, i + 1);
    } else {
      assert os[..i] == os;
    }
  }

  // ---------------------------------------------------------------------
  // reference definitions over the classified lines

  /** The transcript ids of the accepted lines, in file order, with repeats. */
  function AcceptedIds(os: seq<LineOutcome>): seq<string>
    decreases |os|
  {
    if os == [] then []
    else
      var n := |os| - 1;
      AcceptedIds(os[..n]) + (if os[n].Accepted? then [os[n].transcriptId] else [])
  }

  /** The intervals of the accepted lines that carry `transcriptId`, in file order. */
  function ExonsOf(os: seq<LineOutcome>, transcriptId: string): seq<Interval>
    decreases |os|
  {
    if os == [] then []
    else
      var n := |os| - 1;
      ExonsOf(os[..n], transcriptId) +
        (if os[n].Accepted? && os[n].transcriptId == transcriptId then [os[n].exon] else [])
  }

  /** The gene ids of the accepted lines. */
  function GenesOf(os: seq<LineOutcome>): set<string> {
    set k | 0 <= k < |os| && os[k].Accepted? :: os[k].geneId
  }

  /** A transcript has intervals exactly when some accepted line names it. */
  lemma {:induction false} ExonsOfNonEmpty(os: seq<LineOutcome>, transcriptId: string)
    ensures ExonsOf(os, transcriptId) != [] <==> transcriptId in AcceptedIds(os)
    decreases |os|
  {
    if os != [] {
      ExonsOfNonEmpty(os[..|os| - 1], transcriptId);
    }
  }

  lemma GenesOfSnoc(os: seq<LineOutcome>)
    requires os != []
    ensures var o := os[|os| - 1];
      GenesOf(os) == GenesOf(os[..|os| - 1]) + (if o.Accepted? then {o.geneId} else {})
  {
    var init := os[..|os| - 1];
    forall k | 0 <= k < |init|
      ensures os[k] == init[k]
    {
    }
  }

  /**
   * What a successful accumulation holds: the transcripts in first-appearance
   * order of the accepted lines, each mapped to exactly the intervals of its
   * accepted lines in file order (so its list has one entry per accepted
   * line naming it), and the gene set of the accepted lines.
   */
  lemma {:induction false} AccumulateContents(os: seq<LineOutcome>)
    requires Accumulate(os).Success?
    ensures var a := Accumulate(os).value;
      a.order == FirstOccurrences(AcceptedIds(os)) &&
      a.genes == GenesOf(os) &&
      (forall t :: t in a.exons <==> t in AcceptedIds(os)) &&
      (forall t :: t in a.exons ==> a.exons[t] == ExonsOf(os, t))
    decreases |os|
  {
    if os == [] {
      assert GenesOf(os) == {};
    } else {
      var n := |os| - 1;
      var init := os[..n];
      AccumulateContents(init);
      GenesOfSnoc(os);
      var a := Accumulate(os).value;
      var a' := Accumulate(init).value;
      var o := os[n];
      var ids := AcceptedIds(os);
      var ids' := AcceptedIds(init);
      if o.Accepted? {
        assert a == AddExon(a', o.geneId, o.transcriptId, o.exon);
        AcceptedOrder(os, a');
        AcceptedExons(os, a');
      } else {
        assert ids == ids';
        assert a == a';
      }
    }
  }

  /** One accepted line extends the key order as `FirstOccurrences` does. */
  lemma AcceptedOrder(os: seq<LineOutcome>, a': Annotation)
    requires os != [] && os[|os| - 1].Accepted?
    requires var init := os[..|os| - 1];
      a'.order == FirstOccurrences(AcceptedIds(init)) &&
      (forall t :: t in a'.exons <==> t in AcceptedIds(init))
    ensures var o := os[|os| - 1];
      AddExon(a', o.geneId, o.transcriptId, o.exon).order == FirstOccurrences(AcceptedIds(os))
  {
    var init := os[..|os| - 1];
    var t := os[|os| - 1].transcriptId;
    var ids, ids' := AcceptedIds(os), AcceptedIds(init);
    assert ids == ids' + [t];
    assert ids[..|ids| - 1] == ids';
    assert FirstOccurrences(ids) ==
      if t in ids' then FirstOccurrences(ids') else FirstOccurrences(ids') + [t];
  }

  /** One accepted line extends the keys and interval lists as `AcceptedIds` and `ExonsOf` do. */
  lemma AcceptedExons(os: seq<LineOutcome>, a': Annotation)
    requires os != [] && os[|os| - 1].Accepted?
    requires var init := os[..|os| - 1];
      (forall t :: t in a'.exons <==> t in AcceptedIds(init)) &&
      (forall t :: t in a'.exons ==> a'.exons[t] == ExonsOf(init, t))
    ensures var o := os[|os| - 1];
      var a := AddExon(a', o.geneId, o.transcriptId, o.exon);
      (forall t :: t in a.exons <==> t in AcceptedIds(os)) &&
      (forall t :: t in a.exons ==> a.exons[t] == ExonsOf(os, t))
  {
    var init := os[..|os| - 1];
    var o := os[|os| - 1];
    var a := AddExon(a', o.geneId, o.transcriptId, o.exon);
    assert AcceptedIds(os) == AcceptedIds(init) + [o.transcriptId];
    forall t | t in a.exons
      ensures a.exons[t] == ExonsOf(os, t)
    {
      if t == o.transcriptId && t !in a'.exons {
        ExonsOfNonEmpty(init, t);
      }
    }
  }

  /**
   * What `parse_gtf` returns, in terms of the lines of the file: see
   * `AccumulateContents`.
   */
  lemma ParseContents(lines: seq<string>)
    requires Parse(lines).Success?
    ensures var a, os := Parse(lines).value, Outcomes(lines);
      WellFormed(a) &&
      a.order == FirstOccurrences(AcceptedIds(os)) &&
      a.genes == GenesOf(os) &&
      (forall t :: t in a.exons <==> t in AcceptedIds(os)) &&
      (forall t :: t in a.exons ==> a.exons[t] == ExonsOf(os, t))
  {
    AccumulateContents(Outcomes(lines));
    AccumulateWellFormed(Outcomes(lines));
  }

  /**
   * The accumulation fails exactly when some line is fatal, and then it
   * reports the first fatal line, with the kind of error that line has.
   */
  lemma {:induction false} AccumulateFailsAtFirstFatal(os: seq<LineOutcome>)
    ensures Accumulate(os).Failure? <==> exists k :: 0 <= k < |os| && IsFatal(os[k])
    ensures Accumulate(os).Failure? ==>
      var k := Accumulate(os).error.line;
      k < |os| && IsFatal(os[k]) &&
      (forall j :: 0 <= j < k ==> !IsFatal(os[j])) &&
      Accumulate(os).error == (if os[k].BadCoordinate? then CoordinateNotInteger(k) else MalformedAttribute(k))
    decreases |os|
  {
    if os != [] {
      var n := |os| - 1;
      var init := os[..n];
      AccumulateFailsAtFirstFatal(init);
      forall j | 0 <= j < n
        ensures os[j] == init[j]
      {
      }
      if exists k :: 0 <= k < |init| && IsFatal(init[k]) {
        var k :| 0 <= k < |init| && IsFatal(init[k]);
        assert IsFatal(os[k]);
      }
    }
  }

  /** `parse_gtf` fails exactly when some line of the file is fatal, and names the first one. */
  lemma ParseFails(lines: seq<string>)
    ensures Parse(lines).Failure? <==> exists k :: 0 <= k < |lines| && IsFatal(Outcomes(lines)[k])
    ensures Parse(lines).Failure? ==>
      var k := Parse(lines).error.line;
      k < |lines| && IsFatal(Classify(lines[k])) && (forall j :: 0 <= j < k ==> !IsFatal(Classify(lines[j])))
  {
    var os := Outcomes(lines);
    AccumulateFailsAtFirstFatal(os);
    if Parse(lines).Failure? {
      var k := Parse(lines).error.line;
      OutcomesAt(lines, k);
      forall j | 0 <= j < k
        ensures !IsFatal(Classify(lines[j]))
      {
        OutcomesAt(lines, j);
      }
    }
  }

  /** Appending a line that is neither fatal nor accepted changes nothing. */
  lemma AccumulateSkip(os: seq<LineOutcome>, o: LineOutcome)
    requires !IsFatal(o) && !o.Accepted?
    ensures Accumulate(os + [o]) == Accumulate(os)
  {
    assert (os + [o])[..|os|] == os;
  }

  /**
   * A comment, a line with fewer than nine fields, or a non-exon line leaves
   * the transcripts and the genes as they were.
   */
  lemma SkippedLineChangesNothing(lines: seq<string>, line: string)
    requires StartsWith(line, "#") || |Fields(line)| < 9 || Fields(line)[2] != "exon"
    ensures Parse(lines + [line]) == Parse(lines)
  {
    assert Classify(line) == Comment || Classify(line) == TooFewFields || Classify(line) == NotExon;
    OutcomesSnoc(lines, line);
    AccumulateSkip(Outcomes(lines), Classify(line));
  }

  /**
   * An exon line whose attributes lack a non-empty `gene_id` or
   * `transcript_id` leaves the transcripts and the genes as they were, so its
   * coordinates count toward no transcript.
   */
  lemma UnassignedExonChangesNothing(lines: seq<string>, line: string)
    requires !StartsWith(line, "#") && |Fields(line)| >= 9 && Fields(line)[2] == "exon"
    requires ParseInt(Fields(line)[3]).Some? && ParseInt(Fields(line)[4]).Some?
    requires var attrs := Attributes(SegmentsOf(Fields(line)[8]));
      attrs.Some? && !(HasValue(attrs.value, "gene_id") && HasValue(attrs.value, "transcript_id"))
    ensures Parse(lines + [line]) == Parse(lines)
  {
    OutcomesSnoc(lines, line);
    AccumulateSkip(Outcomes(lines), Classify(line));
  }

  /**
   * An exon line that passes every test, with integer coordinates and a
   * non-empty `gene_id` and `transcript_id`, appends its interval to that
   * transcript and adds its gene.
   */
  lemma AcceptedExonAppends(lines: seq<string>, line: string)
    requires Parse(lines).Success?
    requires !StartsWith(line, "#") && |Fields(line)| >= 9 && Fields(line)[2] == "exon"
    requires ParseInt(Fields(line)[3]).Some? && ParseInt(Fields(line)[4]).Some?
    requires var attrs := Attributes(SegmentsOf(Fields(line)[8]));
      attrs.Some? && HasValue(attrs.value, "gene_id") && HasValue(attrs.value, "transcript_id")
    ensures var parts := Fields(line);
      var attrs := Attributes(SegmentsOf(parts[8])).value;
      Parse(lines + [line]) ==
        Success(AddExon(Parse(lines).value, attrs["gene_id"], attrs["transcript_id"],
                        Interval(ParseInt(parts[3]).value, ParseInt(parts[4]).value)))
  {
    ClassifyAccepts(line);
    OutcomesSnoc(lines, line);
    AccumulateAccepted(Outcomes(lines), Classify(line));
  }

  /** The accept test of `parse_gtf`, passed in full, gives an `Accepted` outcome. */
  lemma ClassifyAccepts(line: string)
    requires !StartsWith(line, "#") && |Fields(line)| >= 9 && Fields(line)[2] == "exon"
    requires ParseInt(Fields(line)[3]).Some? && ParseInt(Fields(line)[4]).Some?
    requires var attrs := Attributes(SegmentsOf(Fields(line)[8]));
      attrs.Some? && HasValue(attrs.value, "gene_id") && HasValue(attrs.value, "transcript_id")
    ensures var parts := Fields(line);
      var attrs := Attributes(SegmentsOf(parts[8])).value;
      Classify(line) ==
        Accepted(attrs["gene_id"], attrs["transcript_id"],
                 Interval(ParseInt(parts[3]).value, ParseInt(parts[4]).value))
  {
  }

  lemma AccumulateAccepted(os: seq<LineOutcome>, o: LineOutcome)
    requires Accumulate(os).Success? && o.Accepted?
    ensures Accumulate(os + [o]) == Success(AddExon(Accumulate(os).value, o.geneId, o.transcriptId, o.exon))
  {
    var all := os + [o];
    assert all[..|os|] == os && all[..|os| + 1] == all;
    AccumulateNext(all, |os|, Accumulate(os).value);
  }

  /** A line whose start or end is not an integer aborts the parse, whatever follows. */
  lemma BadCoordinateAborts(lines: seq<string>, line: string, rest: seq<string>)
    requires Parse(lines).Success?
    requires !StartsWith(line, "#") && |Fields(line)| >= 9 && Fields(line)[2] == "exon"
    requires ParseInt(Fields(line)[3]).None? || ParseInt(Fields(line)[4]).None?
    ensures Parse(lines + [line] + rest) == Failure(CoordinateNotInteger(|lines|))
  {
    FatalLineAborts(lines, line, rest);
  }

  /** An exon line with a segment that is not `key value` aborts the parse, whatever follows. */
  lemma MalformedAttributeAborts(lines: seq<string>, line: string, rest: seq<string>)
    requires Parse(lines).Success?
    requires !StartsWith(line, "#") && |Fields(line)| >= 9 && Fields(line)[2] == "exon"
    requires ParseInt(Fields(line)[3]).Some? && ParseInt(Fields(line)[4]).Some?
    requires var pieces := Segments(Fields(line)[8]);
      exists i :: 0 <= i < |pieces| && Strip(pieces[i]) != [] && |Words(Strip(pieces[i]))| != 2
    ensures Parse(lines + [line] + rest) == Failure(MalformedAttribute(|lines|))
  {
    var pieces := Segments(Fields(line)[8]);
    var i :| 0 <= i < |pieces| && Strip(pieces[i]) != [] && |Words(Strip(pieces[i]))| != 2;
    ClassifyMalformed(line, i);
    FatalLineAborts(lines, line, rest);
  }

  /** A piece of the attribute field that is neither blank nor two tokens makes the line `BadAttribute`. */
  lemma ClassifyMalformed(line: string, i: nat)
    requires !StartsWith(line, "#") && |Fields(line)| >= 9 && Fields(line)[2] == "exon"
    requires ParseInt(Fields(line)[3]).Some? && ParseInt(Fields(line)[4]).Some?
    requires var pieces := Segments(Fields(line)[8]);
      i < |pieces| && Strip(pieces[i]) != [] && |Words(Strip(pieces[i]))| != 2
    ensures Classify(line) == BadAttribute
  {
    var ss := SegmentsOf(Fields(line)[8]);
    assert ss[i].Malformed?;
    AttributesFail(ss);
  }

  lemma AccumulateFatal(os: seq<LineOutcome>, o: LineOutcome)
    requires Accumulate(os).Success? && IsFatal(o)
    ensures Accumulate(os + [o]) ==
      Failure(if o.BadCoordinate? then CoordinateNotInteger(|os|) else MalformedAttribute(|os|))
  {
    assert (os + [o])[..|os|] == os;
  }

  lemma FatalLineAborts(lines: seq<string>, line: string, rest: seq<string>)
    requires Parse(lines).Success?
    requires IsFatal(Classify(line))
    ensures Parse(lines + [line] + rest) ==
      Failure(if Classify(line).BadCoordinate? then CoordinateNotInteger(|lines|) else MalformedAttribute(|lines|))
  {
    var all := lines + [line] + rest;
    var os := Outcomes(all);
    assert all[..|lines| + 1] == lines + [line];
    OutcomesPrefix(all, |lines| + 1);
    OutcomesSnoc(lines, line);
    AccumulateFatal(Outcomes(lines), Classify(line));
    AccumulateFailureExtends(os, |lines| + 1);
  }
}
