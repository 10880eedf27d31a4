/** The kinds of failure an analysis reports; message text is not modelled. */
module AnalysisErrors {
  datatype AnalysisError =
    | Unusable
    | EmptySessionId
    | DuplicateSession
    | ChunkFailed
    | TooManyPhrases
    | ScoreOverflow
    | VocabularyFull
    | CountOverflow
    | EmptyParent
}
