/** The response shapes of models/schemas.py: one record per resume, and the two
    response bodies the endpoint can return. */
module Schemas {

  /** `ResumeSummary`: the summary (or the error text) produced for one file. */
  datatype ResumeSummary = ResumeSummary(fileName: string, summary: string)

  /** `ResumeAnalysis`: the answer to the query (or the error text) for one file. */
  datatype ResumeAnalysis = ResumeAnalysis(fileName: string, analysis: string)

  /** The body returned by the endpoint: `SummaryResponse` when no query was
      given, `AnalysisResponse` (which echoes the query) otherwise. */
  datatype Response =
    | SummaryResponse(requestId: string, summaries: seq<ResumeSummary>)
    | AnalysisResponse(requestId: string, queryUsed: string, analyses: seq<ResumeAnalysis>)
}
