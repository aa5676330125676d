/** `analyze_code` as a whole (testgenerator.py lines 44-121): classify, ask for a test, clean it. */
module Synthesizer {
  import opened Outcomes
  import opened Text
  import opened Fences
  import opened Classifier

  /**
   * The test text for one file, given the service's answer to the test prompt. A skipped file
   * gives "" and the service is not asked; a failed call raises to the caller.
   */
  function AnalyzeCode(path: string, code: string, reply: Reply): (out: Outcome<string>)
    ensures Classify(path, code).Skip? ==> out == Returned("")
    ensures out.Raised? <==> Classify(path, code).Candidate? && reply.Failure?
    ensures out.Returned? ==> !Contains(out.value, Fence)
    ensures out.Returned? && out.value != [] ==> !IsSpace(out.value[0]) && !IsSpace(out.value[|out.value| - 1])
  {
    match Classify(path, code)
    case Skip => Returned("")
    case Candidate(_) =>
      match reply
      case Failure => Raised
      case Answer(text) => Returned(CleanReply(text, JavaTag))
  }

  /** A skipped file never needs the service: its answer makes no difference. */
  lemma SkippedIgnoresService(path: string, code: string, a: Reply, b: Reply)
    requires Classify(path, code).Skip?
    ensures AnalyzeCode(path, code, a) == AnalyzeCode(path, code, b) == Returned("")
  {
  }
}
