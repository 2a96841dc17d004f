/** The records the review strategy works on. */
module Models {

  /**
   * One finding read from a line of the model's reply. Category and severity are free text:
   * the parser keeps whatever the line holds, recognised names or not.
   */
  datatype CodeReviewComment = CodeReviewComment(
    fileName: string,
    lineNumber: int,
    category: string,
    severity: string,
    message: string)

  /** One chunk of a patch: the new-file start line from its header (0 when none) and its text. */
  datatype DiffChunk = DiffChunk(newStart: int, content: string)

  /** The parsed form of one file's patch; parsing appends to its list of chunks. */
  class DiffInfo {
    var chunks: seq<DiffChunk>

    constructor ()
      ensures chunks == []
    {
      chunks := [];
    }
  }

  /** A changed file of the pull request as the source-control service reports it. */
  datatype PullRequestFile = PullRequestFile(fileName: string, status: string, patch: string)

  /** The AI back ends a strategy can be registered for. */
  datatype AiModelType = HuggingFace | OpenAI {
    /** The enum member's name, as string interpolation writes it. */
    function Name(): string {
      match this
      case HuggingFace => "HuggingFace"
      case OpenAI => "OpenAI"
    }
  }
}
