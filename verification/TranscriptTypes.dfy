/**
 Domain values of `src/textify/transcription/types.py`: sources, segments and transcripts, with
 the checks their constructors make. Segment times are reals: float rounding is not modelled.
 */
module TranscriptTypes {

  datatype Platform = Youtube | Instagram | Facebook | Tiktok | X

  datatype TranscriptMethod = YoutubeCaptions | FasterWhisper

  datatype Source = Source(
    platform: Platform,
    videoId: string,
    url: string,
    title: string,
    description: string,
    channel: string,
    durationSeconds: int)

  datatype Segment = Segment(start: real, end: real, text: string)

  /** A `Transcript`, or its subclass `TimedTranscript` that keeps the timed segments. */
  datatype Transcript =
    | TextOnly(acquiredBy: TranscriptMethod, language: string, text: string)
    | Timed(acquiredBy: TranscriptMethod, language: string, text: string, segments: seq<Segment>)

  datatype TranscriptionResult = TranscriptionResult(source: Source, transcript: Transcript)

  /** The leaf paths of a response that a request may exclude. */
  datatype FieldPath =
    | SourcePlatform
    | SourceVideoId
    | SourceUrl
    | SourceTitle
    | SourceDescription
    | SourceChannel
    | SourceDurationSeconds
    | TranscriptMethodPath
    | TranscriptLanguage
    | TranscriptText
    | TranscriptSegments
}
