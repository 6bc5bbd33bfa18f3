/**
 The projected response of `src/textify/transcription/schemas.py` and its normalized storage: the
 row translators and CHECK constraints of `src/textify/jobs/repository.py`, and the deferred
 storage invariant of `migrations/versions/0002_execution_attempts.py`.
 */
module ResultRows {
  import opened Options
  import opened TranscriptTypes

  /** A response section with absent keys is a record of optional fields. */
  datatype SourceResponse = SourceResponse(
    platform: Option<Platform>,
    videoId: Option<string>,
    url: Option<string>,
    title: Option<string>,
    description: Option<string>,
    channel: Option<string>,
    durationSeconds: Option<int>)

  datatype TranscriptResponse = TranscriptResponse(
    acquiredBy: Option<TranscriptMethod>,
    language: Option<string>,
    text: Option<string>,
    segments: Option<seq<Segment>>)

  datatype TranscriptionResponse = TranscriptionResponse(source: SourceResponse, transcript: TranscriptResponse)

  /** One `transcription_job_result` row; None is SQL NULL. */
  datatype ResultRow = ResultRow(
    sourcePlatform: Option<Platform>,
    sourceVideoId: Option<string>,
    sourceUrl: Option<string>,
    sourceTitle: Option<string>,
    sourceDescription: Option<string>,
    sourceChannel: Option<string>,
    sourceDurationSeconds: Option<int>,
    transcriptMethod: Option<TranscriptMethod>,
    transcriptLanguage: Option<string>,
    transcriptText: Option<string>)

  /** One `transcription_job_segment` row of a known job. */
  datatype SegmentRow = SegmentRow(ordinal: int, startSeconds: real, endSeconds: real, text: string)

  /** The result row of a job with its segment rows, as selected `ORDER BY ordinal`. */
  datatype StoredResult = StoredResult(row: ResultRow, segments: seq<SegmentRow>)

  // ---------------------------------------------------------------- projection

  function Keep<T>(value: T, path: FieldPath, excluded: set<FieldPath>): Option<T> {
    if path in excluded then None else Some(value)
  }

  function BuildSourceResponse(source: Source, excluded: set<FieldPath>): SourceResponse {
    SourceResponse(
      Keep(source.platform, SourcePlatform, excluded),
      Keep(source.videoId, SourceVideoId, excluded),
      Keep(source.url, SourceUrl, excluded),
      Keep(source.title, SourceTitle, excluded),
      Keep(source.description, SourceDescription, excluded),
      Keep(source.channel, SourceChannel, excluded),
      Keep(source.durationSeconds, SourceDurationSeconds, excluded))
  }

  /** None is the TypeError raised when retained segments are unavailable. */
  function BuildTranscriptResponse(transcript: Transcript, excluded: set<FieldPath>): Option<TranscriptResponse> {
    if TranscriptSegments !in excluded && !transcript.Timed? then None
    else Some(TranscriptResponse(
      Keep(transcript.acquiredBy, TranscriptMethodPath, excluded),
      Keep(transcript.language, TranscriptLanguage, excluded),
      Keep(transcript.text, TranscriptText, excluded),
      if TranscriptSegments in excluded then None else Some(transcript.segments)))
  }

  function BuildTranscriptionResponse(result: TranscriptionResult, excluded: set<FieldPath>)
    : Option<TranscriptionResponse>
  {
    match BuildTranscriptResponse(result.transcript, excluded)
    case None => None
    case Some(transcript) =>
      Some(TranscriptionResponse(BuildSourceResponse(result.source, excluded), transcript))
  }

  /** `_validate_response`: what the response schema demands beyond its field types. */
  predicate IsValidResponse(response: TranscriptionResponse) {
    && (response.source.durationSeconds.Some? ==> response.source.durationSeconds.value > 0)
    && (response.transcript.segments.Some? ==>
          forall segment | segment in response.transcript.segments.value ::
            segment.start >= 0.0 && segment.end >= 0.0 && |segment.text| > 0)
  }

  // ---------------------------------------------------------------- writing

  function ResultValues(response: TranscriptionResponse): ResultRow {
    ResultRow(
      response.source.platform,
      response.source.videoId,
      response.source.url,
      response.source.title,
      response.source.description,
      response.source.channel,
      response.source.durationSeconds,
      response.transcript.acquiredBy,
      response.transcript.language,
      response.transcript.text)
  }

  function RowOfSegment(ordinal: int, segment: Segment): SegmentRow {
    SegmentRow(ordinal, segment.start, segment.end, segment.text)
  }

  function SegmentValues(response: TranscriptionResponse): seq<SegmentRow> {
    match response.transcript.segments
    case None => []
    case Some(segments) =>
      seq(|segments|, i requires 0 <= i < |segments| => RowOfSegment(i, segments[i]))
  }

  function Stored(response: TranscriptionResponse): StoredResult {
    StoredResult(ResultValues(response), SegmentValues(response))
  }

  // ---------------------------------------------------------------- constraints

  predicate LengthWithin(text: Option<string>, maximum: nat) {
    text.Some? ==> 1 <= |text.value| <= maximum
  }

  /** The CHECK constraints of `transcription_job_result` that its column types do not imply. */
  predicate ResultRowCheck(row: ResultRow) {
    && (row.sourceDurationSeconds.Some? ==> row.sourceDurationSeconds.value > 0)
    && LengthWithin(row.sourceVideoId, 255)
    && LengthWithin(row.sourceUrl, 2048)
    && LengthWithin(row.transcriptLanguage, 35)
  }

  /** The CHECK constraint of `transcription_job_segment`. */
  predicate SegmentRowCheck(row: SegmentRow) {
    row.ordinal >= 0 && row.startSeconds >= 0.0 && row.endSeconds >= row.startSeconds && |row.text| > 0
  }

  /** What the primary key (job_id, ordinal) leaves of a selection ordered by ordinal. */
  predicate OrderedByOrdinal(rows: seq<SegmentRow>) {
    forall i, j | 0 <= i < j < |rows| :: rows[i].ordinal < rows[j].ordinal
  }

  predicate NullIffExcluded<T>(column: Option<T>, path: FieldPath, excluded: set<FieldPath>) {
    column.None? <==> path in excluded
  }

  predicate ColumnsMatch(row: ResultRow, excluded: set<FieldPath>) {
    && NullIffExcluded(row.sourcePlatform, SourcePlatform, excluded)
    && NullIffExcluded(row.sourceVideoId, SourceVideoId, excluded)
    && NullIffExcluded(row.sourceUrl, SourceUrl, excluded)
    && NullIffExcluded(row.sourceTitle, SourceTitle, excluded)
    && NullIffExcluded(row.sourceDescription, SourceDescription, excluded)
    && NullIffExcluded(row.sourceChannel, SourceChannel, excluded)
    && NullIffExcluded(row.sourceDurationSeconds, SourceDurationSeconds, excluded)
    && NullIffExcluded(row.transcriptMethod, TranscriptMethodPath, excluded)
    && NullIffExcluded(row.transcriptLanguage, TranscriptLanguage, excluded)
    && NullIffExcluded(row.transcriptText, TranscriptText, excluded)
  }

  /**
   The succeeded branch of the deferred trigger: NULL columns are exactly the excluded ones and
   the ordinals count up from zero, judged from their number, minimum and maximum only.
   */
  predicate StorageInvariant(stored: StoredResult, excluded: set<FieldPath>) {
    && ColumnsMatch(stored.row, excluded)
    && (if TranscriptSegments in excluded then |stored.segments| == 0
        else |stored.segments| > 0 ==>
          && stored.segments[0].ordinal == 0
          && stored.segments[|stored.segments| - 1].ordinal == |stored.segments| - 1)
  }

  /** Everything the database demands of a result when its transaction commits. */
  predicate ResultAccepted(stored: StoredResult, excluded: set<FieldPath>) {
    && ResultRowCheck(stored.row)
    && (forall row | row in stored.segments :: SegmentRowCheck(row))
    && OrderedByOrdinal(stored.segments)
    && StorageInvariant(stored, excluded)
  }

  // ---------------------------------------------------------------- reading

  predicate ContiguousOrdinals(rows: seq<SegmentRow>) {
    forall i | 0 <= i < |rows| :: rows[i].ordinal == i
  }

  function SegmentOfRow(row: SegmentRow): Segment {
    Segment(row.startSeconds, row.endSeconds, row.text)
  }

  function SegmentsOfRows(rows: seq<SegmentRow>): seq<Segment> {
    seq(|rows|, i requires 0 <= i < |rows| => SegmentOfRow(rows[i]))
  }

  /** The response assembled column by column, before it is validated. */
  function AssembledResponse(stored: StoredResult, excluded: set<FieldPath>): TranscriptionResponse {
    var row := stored.row;
    TranscriptionResponse(
      SourceResponse(row.sourcePlatform, row.sourceVideoId, row.sourceUrl, row.sourceTitle,
                     row.sourceDescription, row.sourceChannel, row.sourceDurationSeconds),
      TranscriptResponse(row.transcriptMethod, row.transcriptLanguage, row.transcriptText,
                         if TranscriptSegments in excluded then None else Some(SegmentsOfRows(stored.segments))))
  }

  /** `_response_from_result_rows`; None is TranscriptionJobStoreUnavailableError. */
  function ResponseFromResultRows(stored: StoredResult, excluded: set<FieldPath>): Option<TranscriptionResponse> {
    if !ColumnsMatch(stored.row, excluded) then None
    else if TranscriptSegments in excluded && |stored.segments| > 0 then None
    else if TranscriptSegments !in excluded && !ContiguousOrdinals(stored.segments) then None
    else
      var response := AssembledResponse(stored, excluded);
      if IsValidResponse(response) then Some(response) else None
  }

  // ---------------------------------------------------------------- theorems

  /** A strictly increasing run of n ordinals from zero to n - 1 has no gap. */
  lemma {:induction false} OrdinalsHaveNoGap(rows: seq<SegmentRow>, i: nat)
    requires OrderedByOrdinal(rows) && i < |rows|
    requires rows[0].ordinal == 0 && rows[|rows| - 1].ordinal == |rows| - 1
    ensures rows[i].ordinal == i
  {
    OrdinalAtLeastIndex(rows, i);
    OrdinalAtMostIndex(rows, i);
  }

  lemma {:induction false} OrdinalAtLeastIndex(rows: seq<SegmentRow>, i: nat)
    requires OrderedByOrdinal(rows) && i < |rows| && rows[0].ordinal >= 0
    ensures rows[i].ordinal >= i
  {
    if i > 0 {
      OrdinalAtLeastIndex(rows, i - 1);
    }
  }

  lemma {:induction false} OrdinalAtMostIndex(rows: seq<SegmentRow>, i: nat)
    requires OrderedByOrdinal(rows) && i < |rows| && rows[|rows| - 1].ordinal == |rows| - 1
    ensures rows[i].ordinal <= i
    decreases |rows| - i
  {
    if i < |rows| - 1 {
      OrdinalAtMostIndex(rows, i + 1);
    }
  }

  /**
   The reader and the deferred trigger agree: a stored result that meets the column checks can be
   read back exactly when the trigger accepts it.
   */
  lemma ReaderAgreesWithTrigger(stored: StoredResult, excluded: set<FieldPath>)
    requires ResultRowCheck(stored.row) && OrderedByOrdinal(stored.segments)
    requires forall row | row in stored.segments :: SegmentRowCheck(row)
    ensures ResponseFromResultRows(stored, excluded).Some? <==> StorageInvariant(stored, excluded)
  {
    if TranscriptSegments !in excluded && StorageInvariant(stored, excluded) {
      forall i | 0 <= i < |stored.segments| ensures stored.segments[i].ordinal == i {
        OrdinalsHaveNoGap(stored.segments, i);
      }
    }
    var response := AssembledResponse(stored, excluded);
    if response.transcript.segments.Some? {
      var segments := response.transcript.segments.value;
      forall segment | segment in segments
        ensures segment.start >= 0.0 && segment.end >= 0.0 && |segment.text| > 0
      {
        var i :| 0 <= i < |segments| && segments[i] == segment;
        assert stored.segments[i] in stored.segments;
      }
    }
  }

  /** Writing what was read gives back the stored rows. */
  lemma ReadThenWrite(stored: StoredResult, excluded: set<FieldPath>)
    requires ResponseFromResultRows(stored, excluded).Some?
    ensures Stored(ResponseFromResultRows(stored, excluded).value) == stored
  {
    var response := ResponseFromResultRows(stored, excluded).value;
    assert SegmentValues(response) == stored.segments;
  }

  /** What a stored response reads back as: excluded segments are gone, kept ones are listed. */
  function ReadBack(response: TranscriptionResponse, excluded: set<FieldPath>): TranscriptionResponse {
    response.(transcript := response.transcript.(
      segments := if TranscriptSegments in excluded then None else Some(response.transcript.segments.GetOr([]))))
  }

  /** Segments are absent exactly where they are excluded. */
  predicate IsProjected(response: TranscriptionResponse, excluded: set<FieldPath>) {
    response.transcript.segments.None? <==> TranscriptSegments in excluded
  }

  /**
   Reading what was written, for every write that the trigger accepts: the response comes back, and
   unchanged exactly if it was projected with these exclusions.
   */
  lemma WriteThenRead(response: TranscriptionResponse, excluded: set<FieldPath>)
    requires IsValidResponse(response)
    requires StorageInvariant(Stored(response), excluded)
    ensures ResponseFromResultRows(Stored(response), excluded) == Some(ReadBack(response, excluded))
    ensures ReadBack(response, excluded) == response <==> IsProjected(response, excluded)
  {
    assert SegmentsOfRows(SegmentValues(response)) == response.transcript.segments.GetOr([]);
  }

  /** What the domain constructors guarantee about a result, as far as storage needs it. */
  predicate IsDomainResult(result: TranscriptionResult) {
    && result.source.durationSeconds > 0
    && (result.transcript.Timed? ==>
          forall segment | segment in result.transcript.segments ::
            0.0 <= segment.start <= segment.end && |segment.text| > 0)
  }

  /** The lengths of the columns that are kept; a provider value may exceed them. */
  predicate FitsColumns(result: TranscriptionResult, excluded: set<FieldPath>) {
    && (SourceVideoId !in excluded ==> 1 <= |result.source.videoId| <= 255)
    && (SourceUrl !in excluded ==> 1 <= |result.source.url| <= 2048)
    && (TranscriptLanguage !in excluded ==> 1 <= |result.transcript.language| <= 35)
  }

  /** Segments are at hand where they are asked for. */
  predicate HasKeptSegments(result: TranscriptionResult, excluded: set<FieldPath>) {
    TranscriptSegments !in excluded ==> result.transcript.Timed?
  }

  /** The field is left out exactly if its path is excluded, and otherwise shows this value. */
  predicate ShowsField<T(==)>(field: Option<T>, value: T, path: FieldPath, excluded: set<FieldPath>) {
    if path in excluded then field.None? else field.Some? && field.value == value
  }

  predicate ShowsSource(response: TranscriptionResponse, result: TranscriptionResult, excluded: set<FieldPath>) {
    && ShowsField(response.source.platform, result.source.platform, SourcePlatform, excluded)
    && ShowsField(response.source.videoId, result.source.videoId, SourceVideoId, excluded)
    && ShowsField(response.source.url, result.source.url, SourceUrl, excluded)
    && ShowsField(response.source.title, result.source.title, SourceTitle, excluded)
    && ShowsField(response.source.description, result.source.description, SourceDescription, excluded)
    && ShowsField(response.source.channel, result.source.channel, SourceChannel, excluded)
    && ShowsField(response.source.durationSeconds, result.source.durationSeconds, SourceDurationSeconds, excluded)
  }

  predicate ShowsTranscript(response: TranscriptionResponse, result: TranscriptionResult, excluded: set<FieldPath>)
    requires HasKeptSegments(result, excluded)
  {
    && ShowsField(response.transcript.acquiredBy, result.transcript.acquiredBy, TranscriptMethodPath, excluded)
    && ShowsField(response.transcript.language, result.transcript.language, TranscriptLanguage, excluded)
    && ShowsField(response.transcript.text, result.transcript.text, TranscriptText, excluded)
    && (if TranscriptSegments in excluded then response.transcript.segments.None?
        else response.transcript.segments == Some(result.transcript.segments))
  }

  /** Each column holds the value of its own field, or is NULL. */
  predicate HoldsColumns(row: ResultRow, result: TranscriptionResult, excluded: set<FieldPath>) {
    && ShowsField(row.sourcePlatform, result.source.platform, SourcePlatform, excluded)
    && ShowsField(row.sourceVideoId, result.source.videoId, SourceVideoId, excluded)
    && ShowsField(row.sourceUrl, result.source.url, SourceUrl, excluded)
    && ShowsField(row.sourceTitle, result.source.title, SourceTitle, excluded)
    && ShowsField(row.sourceDescription, result.source.description, SourceDescription, excluded)
    && ShowsField(row.sourceChannel, result.source.channel, SourceChannel, excluded)
    && ShowsField(row.sourceDurationSeconds, result.source.durationSeconds, SourceDurationSeconds, excluded)
    && ShowsField(row.transcriptMethod, result.transcript.acquiredBy, TranscriptMethodPath, excluded)
    && ShowsField(row.transcriptLanguage, result.transcript.language, TranscriptLanguage, excluded)
    && ShowsField(row.transcriptText, result.transcript.text, TranscriptText, excluded)
  }

  /** One row for each kept segment, counted from zero. */
  predicate HoldsSegments(rows: seq<SegmentRow>, result: TranscriptionResult, excluded: set<FieldPath>)
    requires HasKeptSegments(result, excluded)
  {
    if TranscriptSegments in excluded then rows == []
    else
      && |rows| == |result.transcript.segments|
      && forall i | 0 <= i < |rows| ::
           rows[i] == SegmentRow(i, result.transcript.segments[i].start, result.transcript.segments[i].end,
                                 result.transcript.segments[i].text)
  }

  /** The projection, field by field, and its rows, column by column. */
  lemma ProjectionByField(result: TranscriptionResult, excluded: set<FieldPath>)
    requires HasKeptSegments(result, excluded)
    ensures BuildTranscriptionResponse(result, excluded).Some?
    ensures var response := BuildTranscriptionResponse(result, excluded).value;
      && ShowsSource(response, result, excluded) && ShowsTranscript(response, result, excluded)
      && HoldsColumns(Stored(response).row, result, excluded)
      && HoldsSegments(Stored(response).segments, result, excluded)
  {
    var response := BuildTranscriptionResponse(result, excluded).value;
    assert ShowsSource(response, result, excluded) && ShowsTranscript(response, result, excluded);
    hide BuildTranscriptionResponse;
    hide ShowsField;
  }

  /**
   The storage round trip, for every result and every exclusion set: the projection exists exactly if
   kept segments are at hand, is then valid and reads back unchanged from its rows, and the database
   accepts those rows exactly if the kept values fit their columns.
   */
  lemma StorageRoundTrip(result: TranscriptionResult, excluded: set<FieldPath>)
    requires IsDomainResult(result)
    ensures BuildTranscriptionResponse(result, excluded).Some? <==> HasKeptSegments(result, excluded)
    ensures HasKeptSegments(result, excluded) ==>
      var response := BuildTranscriptionResponse(result, excluded).value;
      && IsValidResponse(response)
      && ResponseFromResultRows(Stored(response), excluded) == Some(response)
      && (ResultAccepted(Stored(response), excluded) <==> FitsColumns(result, excluded))
  {
    if HasKeptSegments(result, excluded) {
      var response := BuildTranscriptionResponse(result, excluded).value;
      var rows := SegmentValues(response);
      forall row | row in rows ensures SegmentRowCheck(row) {
        var i :| 0 <= i < |rows| && rows[i] == row;
        assert result.transcript.segments[i] in result.transcript.segments;
      }
      WriteThenRead(response, excluded);
    }
  }
}
