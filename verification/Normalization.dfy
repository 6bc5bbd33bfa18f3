/**
 `normalize_transcript` and the validating constructors of `src/textify/transcription/types.py`.
 Times are reals, so float rounding is not modelled; the provider library that standardizes language
 tags is a parameter.
 */
module Normalization {
  import opened Options
  import opened TranscriptTypes
  import opened ResultRows
  import opened Whitespace

  datatype Outcome<+T> = Ok(value: T) | TypeError | ValueError

  /** A provider value intended as seconds. */
  datatype RawTime = NotNumeric | NotFinite | Number(seconds: real)

  datatype RawText = NotText | Text(text: string)

  datatype RawSegment = Misshapen | Raw(start: RawTime, end: RawTime, text: RawText)

  /** A normalized record is a segment that no constructor has validated yet. */
  type Record = Segment

  // ---------------------------------------------------------------- validation

  function ValidatedTime(value: RawTime): Outcome<real> {
    match value
    case NotNumeric => TypeError
    case NotFinite => ValueError
    case Number(seconds) => if seconds < 0.0 then ValueError else Ok(seconds)
  }

  /** The checks of one raw segment, in order; None is a blank text. */
  function CheckedSegment(raw: RawSegment): Outcome<Option<Record>> {
    match raw
    case Misshapen => TypeError
    case Raw(rawStart, rawEnd, rawText) =>
      match ValidatedTime(rawStart)
      case TypeError => TypeError
      case ValueError => ValueError
      case Ok(start) =>
        match ValidatedTime(rawEnd)
        case TypeError => TypeError
        case ValueError => ValueError
        case Ok(end) =>
          if end < start then ValueError
          else if rawText.NotText? then TypeError
          else if CollapseWhitespace(rawText.text) == "" then Ok(None)
          else Ok(Some(Segment(start, end, CollapseWhitespace(rawText.text))))
  }

  /** The records of all raw segments, or the error of the first one that fails. */
  function NormalizedRecords(raws: seq<RawSegment>): Outcome<seq<Record>> {
    if raws == [] then Ok([])
    else
      match NormalizedRecords(raws[..|raws| - 1])
      case TypeError => TypeError
      case ValueError => ValueError
      case Ok(records) =>
        match CheckedSegment(raws[|raws| - 1])
        case TypeError => TypeError
        case ValueError => ValueError
        case Ok(None) => Ok(records)
        case Ok(Some(record)) => Ok(records + [record])
  }

  // ---------------------------------------------------------------- language tags

  /** `standardize_tag`; None is LanguageTagError. */
  type TagStandard = string -> Option<string>

  function StripLeft(text: string): string {
    if text != "" && IsSpace(text[0]) then StripLeft(text[1..]) else text
  }

  function StripRight(text: string): string {
    if text != "" && IsSpace(text[|text| - 1]) then StripRight(text[..|text| - 1]) else text
  }

  /** `normalize_language_tag`; None is a value that is not a string. */
  function NormalizeLanguageTag(standard: TagStandard, language: Option<string>): string {
    if language.None? || StripRight(StripLeft(language.value)) == "" then "und"
    else standard(StripRight(StripLeft(language.value))).GetOr("und")
  }

  /** Normalizing a normalized tag changes nothing. */
  ghost predicate IsIdempotent(standard: TagStandard) {
    forall language: Option<string> ::
      var tag := NormalizeLanguageTag(standard, language);
      NormalizeLanguageTag(standard, Some(tag)) == tag
  }

  // ---------------------------------------------------------------- constructors

  predicate IsSortedByStart(records: seq<Record>) {
    forall i, j | 0 <= i < j < |records| :: records[i].start <= records[j].start
  }

  function TextsOf(records: seq<Record>): (texts: seq<string>)
    ensures |texts| == |records|
    ensures forall i | 0 <= i < |records| :: texts[i] == records[i].text
  {
    if records == [] then [] else [records[0].text] + TextsOf(records[1..])
  }

  /** `Segment.__post_init__` on values that already have the right types. */
  predicate IsValidSegment(segment: Segment) {
    && segment.start >= 0.0 && segment.end >= segment.start
    && segment.text != "" && IsCollapsed(segment.text)
  }

  /** `Transcript.__post_init__`. */
  predicate IsValidTranscript(standard: TagStandard, transcript: Transcript) {
    && transcript.language == NormalizeLanguageTag(standard, Some(transcript.language))
    && IsCollapsed(transcript.text)
    && (transcript.text == "" ==> transcript.language == "und")
  }

  /** `TimedTranscript.__post_init__`. */
  predicate IsValidTimedTranscript(standard: TagStandard, transcript: Transcript)
    requires transcript.Timed?
  {
    && IsValidTranscript(standard, transcript)
    && (forall i | 0 <= i < |transcript.segments| - 1 ::
          transcript.segments[i].start <= transcript.segments[i + 1].start)
    && transcript.text == Join(TextsOf(transcript.segments))
  }

  /** The constructor calls at the end of `normalize_transcript`. */
  function Constructed(
    standard: TagStandard, acquiredBy: TranscriptMethod, language: string, sorted: seq<Record>, includeSegments: bool)
    : Outcome<Transcript>
  {
    var text := Join(TextsOf(sorted));
    if !includeSegments then
      var transcript := TextOnly(acquiredBy, language, text);
      if IsValidTranscript(standard, transcript) then Ok(transcript) else ValueError
    else if exists segment :: segment in sorted && !IsValidSegment(segment) then ValueError
    else
      var transcript := Timed(acquiredBy, language, text, sorted);
      if IsValidTimedTranscript(standard, transcript) then Ok(transcript) else ValueError
  }

  // ---------------------------------------------------------------- stable sorting

  /** The records that start at one instant, in their order. */
  function StartingAt(records: seq<Record>, start: real): seq<Record> {
    if records == [] then []
    else if records[0].start == start then [records[0]] + StartingAt(records[1..], start)
    else StartingAt(records[1..], start)
  }

  /** Sorted by start, and records with equal starts keep their order. */
  ghost predicate IsStableSort(records: seq<Record>, sorted: seq<Record>) {
    IsSortedByStart(sorted) && forall start :: StartingAt(sorted, start) == StartingAt(records, start)
  }

  function Inserted(record: Record, sorted: seq<Record>): seq<Record> {
    if sorted == [] || record.start <= sorted[0].start then [record] + sorted
    else [sorted[0]] + Inserted(record, sorted[1..])
  }

  /** `list.sort(key=start)`: a record goes before the later ones that do not start earlier. */
  function SortedByStart(records: seq<Record>): seq<Record> {
    if records == [] then [] else Inserted(records[0], SortedByStart(records[1..]))
  }

  lemma {:induction false} InsertedPermutes(record: Record, sorted: seq<Record>)
    ensures multiset(Inserted(record, sorted)) == multiset(sorted) + multiset{record}
  {
    if sorted != [] && record.start > sorted[0].start {
      InsertedPermutes(record, sorted[1..]);
      assert sorted == [sorted[0]] + sorted[1..];
    }
  }

  lemma {:induction false} InsertedMembers(record: Record, sorted: seq<Record>)
    ensures forall other :: other in Inserted(record, sorted) <==> other == record || other in sorted
  {
    if sorted != [] && record.start > sorted[0].start {
      InsertedMembers(record, sorted[1..]);
    }
  }

  lemma {:induction false} InsertedIsSorted(record: Record, sorted: seq<Record>)
    requires IsSortedByStart(sorted)
    ensures IsSortedByStart(Inserted(record, sorted))
  {
    if sorted != [] && record.start > sorted[0].start {
      var rest := Inserted(record, sorted[1..]);
      InsertedIsSorted(record, sorted[1..]);
      InsertedMembers(record, sorted[1..]);
      forall i | 0 <= i < |rest| ensures sorted[0].start <= rest[i].start {
        assert rest[i] in rest;
      }
    }
  }

  lemma {:induction false} InsertedGoesFirst(record: Record, sorted: seq<Record>, start: real)
    requires IsSortedByStart(sorted)
    ensures StartingAt(Inserted(record, sorted), start) == StartingAt([record] + sorted, start)
  {
    assert ([record] + sorted)[1..] == sorted;
    if sorted == [] || record.start <= sorted[0].start {
    } else {
      InsertedGoesFirst(record, sorted[1..], start);
      assert ([record] + sorted[1..])[1..] == sorted[1..];
      var rest := Inserted(record, sorted[1..]);
      assert ([sorted[0]] + rest)[1..] == rest;
    }
  }

  /** The sort is stable, and a permutation. */
  lemma {:induction false} SortIsStable(records: seq<Record>)
    ensures IsStableSort(records, SortedByStart(records))
    ensures multiset(SortedByStart(records)) == multiset(records)
  {
    if records != [] {
      SortIsStable(records[1..]);
      var rest := SortedByStart(records[1..]);
      InsertedIsSorted(records[0], rest);
      InsertedPermutes(records[0], rest);
      assert records == [records[0]] + records[1..];
      forall start ensures StartingAt(Inserted(records[0], rest), start) == StartingAt(records, start) {
        InsertedGoesFirst(records[0], rest, start);
        assert ([records[0]] + rest)[1..] == rest;
      }
    }
  }

  lemma {:induction false} StartingAtMembers(records: seq<Record>, start: real)
    ensures forall record :: record in StartingAt(records, start) <==> record in records && record.start == start
  {
    if records != [] {
      StartingAtMembers(records[1..], start);
    }
  }

  /** Whatever algorithm sorts stably, there is only one result. */
  lemma {:induction false} StableSortIsUnique(records: seq<Record>, a: seq<Record>, b: seq<Record>)
    requires IsStableSort(records, a) && IsStableSort(records, b)
    ensures a == b
    decreases |a|
  {
    if a != [] {
      BothNonempty(records, a, b);
      SameFirstStart(records, a, b);
      SameFirstStart(records, b, a);
      var start := a[0].start;
      assert StartingAt(a, start)[0] == a[0] && StartingAt(b, start)[0] == b[0];
      forall other ensures StartingAt(a[1..], other) == StartingAt(b[1..], other) {
        assert StartingAt(a, other) == StartingAt(b, other);
        if other == start {
          assert StartingAt(a, other)[1..] == StartingAt(a[1..], other);
          assert StartingAt(b, other)[1..] == StartingAt(b[1..], other);
        }
      }
      StableSortIsUnique(b[1..], a[1..], b[1..]);
    } else if b != [] {
      BothNonempty(records, b, a);
    }
  }

  lemma BothNonempty(records: seq<Record>, a: seq<Record>, b: seq<Record>)
    requires IsStableSort(records, a) && IsStableSort(records, b) && a != []
    ensures b != []
  {
    var start := a[0].start;
    assert |StartingAt(a, start)| > 0;
    assert StartingAt(a, start) == StartingAt(records, start) == StartingAt(b, start);
  }

  lemma SameFirstStart(records: seq<Record>, a: seq<Record>, b: seq<Record>)
    requires IsStableSort(records, a) && IsStableSort(records, b) && a != [] && b != []
    ensures a[0].start <= b[0].start
  {
    var start := b[0].start;
    assert StartingAt(a, start) == StartingAt(b, start);
    StartingAtMembers(a, start);
    StartingAtMembers(b, start);
    assert b[0] in b && b[0] in StartingAt(b, start);
    var i :| 0 <= i < |a| && a[i] == b[0];
  }

  // ---------------------------------------------------------------- normalize_transcript

  function NormalizedTranscript(
    standard: TagStandard, acquiredBy: TranscriptMethod, language: Option<string>, raws: seq<RawSegment>,
      includeSegments: bool)
    : Outcome<Transcript>
  {
    match NormalizedRecords(raws)
    case TypeError => TypeError
    case ValueError => ValueError
    case Ok(records) =>
      var tag := if records == [] then "und" else NormalizeLanguageTag(standard, language);
      Constructed(standard, acquiredBy, tag, SortedByStart(records), includeSegments)
  }

  method NormalizeTranscript(
    standard: TagStandard, acquiredBy: TranscriptMethod, language: Option<string>, raws: seq<RawSegment>,
      includeSegments: bool)
    returns (outcome: Outcome<Transcript>)
    ensures outcome == NormalizedTranscript(standard, acquiredBy, language, raws, includeSegments)
  {
    var records: seq<Record> := [];
    for i := 0 to |raws|
      invariant NormalizedRecords(raws[..i]) == Ok(records)
    {
      assert raws[..i + 1][..i] == raws[..i];
      match CheckedSegment(raws[i]) {
        case TypeError =>
          ErrorsStay(raws, i + 1);
          return TypeError;
        case ValueError =>
          ErrorsStay(raws, i + 1);
          return ValueError;
        case Ok(None) =>
        case Ok(Some(record)) =>
          records := records + [record];
      }
    }
    assert raws[..|raws|] == raws;
    var sorted := SortedByStart(records);
    var tag := NormalizeLanguageTag(standard, language);
    if records == [] {
      tag := "und";
    }
    outcome := Constructed(standard, acquiredBy, tag, sorted, includeSegments);
  }

  /** The first error decides, whatever follows it. */
  lemma {:induction false} ErrorsStay(raws: seq<RawSegment>, n: nat)
    requires n <= |raws| && !NormalizedRecords(raws[..n]).Ok?
    ensures NormalizedRecords(raws) == NormalizedRecords(raws[..n])
    decreases |raws|
  {
    if n == |raws| {
      assert raws[..n] == raws;
    } else {
      assert raws[..|raws| - 1][..n] == raws[..n];
      ErrorsStay(raws[..|raws| - 1], n);
    }
  }

  // ---------------------------------------------------------------- what comes from what

  /** A raw segment that passes the time and text checks. */
  predicate IsAcceptable(raw: RawSegment) {
    && raw.Raw? && raw.text.Text?
    && raw.start.Number? && raw.start.seconds >= 0.0
    && raw.end.Number? && raw.end.seconds >= raw.start.seconds
  }

  lemma {:induction false} AcceptableIffNoError(raws: seq<RawSegment>)
    ensures NormalizedRecords(raws).Ok? <==> forall raw | raw in raws :: IsAcceptable(raw)
  {
    if raws != [] {
      var rest, last := raws[..|raws| - 1], raws[|raws| - 1];
      AcceptableIffNoError(rest);
      assert raws == rest + [last];
      assert CheckedSegment(last).Ok? <==> IsAcceptable(last);
    }
  }

  /** A segment whose text shows something. */
  predicate IsVisible(raw: RawSegment) {
    raw.Raw? && raw.text.Text? && !IsGap(raw.text.text)
  }

  function VisibleRaws(raws: seq<RawSegment>): seq<RawSegment> {
    if raws == [] then []
    else
      var last := raws[|raws| - 1];
      VisibleRaws(raws[..|raws| - 1]) + if IsVisible(last) then [last] else []
  }

  /** The record has the times of the raw segment and its collapsed text. */
  predicate ComesFrom(record: Record, raw: RawSegment) {
    && raw.Raw? && raw.text.Text?
    && raw.start == Number(record.start) && raw.end == Number(record.end)
    && record.text == CollapseWhitespace(raw.text.text)
  }

  /** Each visible segment gives one record, in order, and nothing else does. */
  lemma {:induction false} RecordsComeFromVisible(raws: seq<RawSegment>)
    requires NormalizedRecords(raws).Ok?
    ensures var records := NormalizedRecords(raws).value;
      && |records| == |VisibleRaws(raws)|
      && forall i | 0 <= i < |records| :: ComesFrom(records[i], VisibleRaws(raws)[i])
  {
    if raws != [] {
      var last := raws[|raws| - 1];
      RecordsComeFromVisible(raws[..|raws| - 1]);
      if last.Raw? && last.text.Text? {
        BlankIff(last.text.text);
      }
      hide CollapseWhitespace;
      hide IsGap;
    }
  }

  predicate IsTime(time: RawTime) { time.Number? && time.seconds >= 0.0 }

  /** The first failing check is one of shape or type, and not of value. */
  predicate IsTypeFault(raw: RawSegment) {
    || raw.Misshapen?
    || raw.start.NotNumeric?
    || (IsTime(raw.start) && raw.end.NotNumeric?)
    || (IsTime(raw.start) && IsTime(raw.end) && raw.start.seconds <= raw.end.seconds && raw.text.NotText?)
  }

  /** The first segment that is not acceptable decides which error is raised. */
  lemma FirstFaultDecides(
    standard: TagStandard, acquiredBy: TranscriptMethod, language: Option<string>, raws: seq<RawSegment>,
    includeSegments: bool, i: nat)
    requires i < |raws| && !IsAcceptable(raws[i])
    requires forall raw | raw in raws[..i] :: IsAcceptable(raw)
    ensures NormalizedTranscript(standard, acquiredBy, language, raws, includeSegments) ==
      if IsTypeFault(raws[i]) then TypeError else ValueError
  {
    AcceptableIffNoError(raws[..i]);
    assert raws[..i + 1][..i] == raws[..i];
    ErrorsStay(raws, i + 1);
  }

  /** No leading and no trailing whitespace. */
  predicate IsTrimmed(text: string) {
    text == "" || (!IsSpace(text[0]) && !IsSpace(text[|text| - 1]))
  }

  lemma {:induction false} StripLeftSkips(gap: string, rest: string)
    requires IsGap(gap) && (rest == "" || !IsSpace(rest[0]))
    ensures StripLeft(gap + rest) == rest
  {
    if gap == "" {
      assert gap + rest == rest;
    } else {
      assert gap[0] in gap && forall c | c in gap[1..] :: c in gap;
      assert (gap + rest)[1..] == gap[1..] + rest;
      StripLeftSkips(gap[1..], rest);
    }
  }

  lemma {:induction false} StripRightSkips(front: string, gap: string)
    requires IsGap(gap) && (front == "" || !IsSpace(front[|front| - 1]))
    ensures StripRight(front + gap) == front
  {
    if gap == "" {
      assert front + gap == front;
    } else {
      var n := |gap| - 1;
      assert gap[n] in gap && forall c | c in gap[..n] :: c in gap;
      assert (front + gap)[..|front + gap| - 1] == front + gap[..n];
      StripRightSkips(front, gap[..n]);
    }
  }

  /**
   A tag is what the standard makes of the trimmed text; `und` without a text, for a blank one, and for
   one that the standard refuses.
   */
  lemma TagOfTrimmed(standard: TagStandard, left: string, tag: string, right: string)
    requires IsGap(left) && IsGap(right) && IsTrimmed(tag)
    ensures NormalizeLanguageTag(standard, None) == "und"
    ensures NormalizeLanguageTag(standard, Some(left + tag + right)) ==
      if tag == "" || standard(tag).None? then "und" else standard(tag).value
  {
    if tag == "" {
      assert left + tag + right == (left + right) + "";
      StripLeftSkips(left + right, "");
    } else {
      assert left + tag + right == left + (tag + right);
      StripLeftSkips(left, tag + right);
      StripRightSkips(tag, right);
    }
  }

  // ---------------------------------------------------------------- canonical form

  lemma {:induction false} RecordsAreValid(raws: seq<RawSegment>)
    requires NormalizedRecords(raws).Ok?
    ensures forall record | record in NormalizedRecords(raws).value :: IsValidSegment(record)
  {
    if raws != [] {
      var last := raws[|raws| - 1];
      RecordsAreValid(raws[..|raws| - 1]);
      if last.Raw? && last.text.Text? {
        CollapseIsIdempotent(last.text.text);
      }
    }
  }

  lemma SortedTexts(records: seq<Record>)
    requires forall record | record in records :: IsValidSegment(record)
    ensures forall record | record in SortedByStart(records) :: IsValidSegment(record)
    ensures IsCollapsed(Join(TextsOf(SortedByStart(records))))
    ensures Join(TextsOf(SortedByStart(records))) == "" <==> records == []
    ensures |SortedByStart(records)| == |records|
  {
    var sorted := SortedByStart(records);
    SortIsStable(records);
    assert |multiset(sorted)| == |multiset(records)|;
    forall record | record in sorted ensures IsValidSegment(record) {
      assert record in multiset(sorted);
    }
    forall text | text in TextsOf(sorted) ensures text != "" && IsCollapsed(text) {
      var i :| 0 <= i < |sorted| && TextsOf(sorted)[i] == text;
      assert sorted[i] in sorted;
    }
    JoinIsCollapsed(TextsOf(sorted));
  }

  /** What the constructors check holds of sorted records with a normalized tag. */
  lemma ConstructorsAccept(
    standard: TagStandard, acquiredBy: TranscriptMethod, tag: string, records: seq<Record>)
    requires forall record | record in records :: IsValidSegment(record)
    requires NormalizeLanguageTag(standard, Some(tag)) == tag && (records == [] ==> tag == "und")
    ensures var sorted := SortedByStart(records);
      var text := Join(TextsOf(sorted));
      && Constructed(standard, acquiredBy, tag, sorted, true) == Ok(Timed(acquiredBy, tag, text, sorted))
      && Constructed(standard, acquiredBy, tag, sorted, false) == Ok(TextOnly(acquiredBy, tag, text))
      && IsValidTimedTranscript(standard, Timed(acquiredBy, tag, text, sorted))
      && IsValidTranscript(standard, TextOnly(acquiredBy, tag, text))
      && (forall segment | segment in sorted :: IsValidSegment(segment))
      && IsSingleSpaced(text) && (sorted == [] ==> records == [] && text == "")
  {
    hide NormalizeLanguageTag;
    hide IsCollapsed;
    hide SortedByStart;
    SortedTexts(records);
    SortIsStable(records);
    CollapsedIff(Join(TextsOf(SortedByStart(records))));
  }

  /**
   Normalization is canonical. Exactly when every raw segment passes the time and text checks there
   is a transcript: the constructors never reject it. Its segments are the one stable sort by start
   of the nonblank records, its text is their joined text and a fixed point of collapsing, silent
   media has the `und` tag, and leaving the segments out changes neither text nor language.
   */
  lemma NormalizationIsCanonical(
    standard: TagStandard, acquiredBy: TranscriptMethod, language: Option<string>, raws: seq<RawSegment>)
    requires IsIdempotent(standard)
    ensures var timed := NormalizedTranscript(standard, acquiredBy, language, raws, true);
      var textOnly := NormalizedTranscript(standard, acquiredBy, language, raws, false);
      && (timed.Ok? <==> forall raw | raw in raws :: IsAcceptable(raw))
      && (timed.Ok? ==>
            && NormalizedRecords(raws).Ok?
            && timed.value.Timed? && textOnly.Ok? && textOnly.value.TextOnly?
            && IsValidTimedTranscript(standard, timed.value) && IsValidTranscript(standard, textOnly.value)
            && IsStableSort(NormalizedRecords(raws).value, timed.value.segments)
            && (forall segment | segment in timed.value.segments :: IsValidSegment(segment))
            && IsSingleSpaced(timed.value.text)
            && timed.value.text == Join(TextsOf(timed.value.segments))
            && timed.value.acquiredBy == acquiredBy && textOnly.value.acquiredBy == acquiredBy
            && timed.value.language ==
                 (if VisibleRaws(raws) == [] then "und" else NormalizeLanguageTag(standard, language))
            && textOnly.value.text == timed.value.text && textOnly.value.language == timed.value.language
            && (timed.value.segments == [] ==> timed.value.text == "" && timed.value.language == "und"))
      && (!timed.Ok? ==> textOnly == timed)
  {
    hide Constructed;
    hide SortedByStart;
    hide IsValidTimedTranscript;
    hide IsValidTranscript;
    hide IsStableSort;
    hide IsSingleSpaced;
    hide IsValidSegment;
    AcceptableIffNoError(raws);
    if NormalizedRecords(raws).Ok? {
      var records := NormalizedRecords(raws).value;
      RecordsAreValid(raws);
      RecordsComeFromVisible(raws);
      SortIsStable(records);
      assert NormalizeLanguageTag(standard, None) == "und";
      var tag := if records == [] then "und" else NormalizeLanguageTag(standard, language);
      assert NormalizeLanguageTag(standard, Some(tag)) == tag;
      ConstructorsAccept(standard, acquiredBy, tag, records);
    }
  }

  /** A normalized transcript is fit for storage, and timed exactly if segments were asked for. */
  lemma NormalizedIsDomainResult(
    standard: TagStandard, acquiredBy: TranscriptMethod, language: Option<string>, raws: seq<RawSegment>,
    includeSegments: bool, source: Source)
    requires IsIdempotent(standard) && source.durationSeconds > 0
    requires NormalizedTranscript(standard, acquiredBy, language, raws, includeSegments).Ok?
    ensures var transcript := NormalizedTranscript(standard, acquiredBy, language, raws, includeSegments).value;
      IsDomainResult(TranscriptionResult(source, transcript)) && (transcript.Timed? <==> includeSegments)
  {
    NormalizationIsCanonical(standard, acquiredBy, language, raws);
  }
}
