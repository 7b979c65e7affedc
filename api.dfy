/**
 * What the service's handlers exchange: a row of the papers table and a JSON
 * response with its HTTP status.
 */
module Api {

  /** A row of the papers table (its id and upload date are not modelled). */
  datatype Paper = Paper(subject: string, branch: string, regulation: string, filename: string)

  /**
   * The JSON body of a response: {"error": ...}, the upload's
   * {"success": ..., "filename": ...}, the delete's {"success": "Paper '<name>'
   * deleted successfully."} or {"analysis_result": ...}.
   */
  datatype Body =
    | Error(error: string)
    | Uploaded(filename: string)
    | Deleted(filename: string)
    | Analyzed(analysisResult: string)

  datatype Response = Response(status: nat, body: Body)

  function BadRequest(message: string): Response { Response(400, Error(message)) }

  function NotFound(message: string): Response { Response(404, Error(message)) }

  function ServerError(message: string): Response { Response(500, Error(message)) }
}
