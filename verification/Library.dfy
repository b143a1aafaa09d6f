/** The p101 libraries as the tool uses them: functions of the bytes they are given. */
module Library {
  import opened Wrappers
  import opened CText
  import opened Artifacts

  datatype Outcome = Clean | Findings | Trouble

  /** `p101_tool_outcome_exit_status` */
  function ExitStatus(outcome: Outcome): (r: int) {
    match outcome
    case Clean => 0
    case Findings => 1
    case Trouble => 2
  }

  datatype FailureReason = NoFailure | FindingsPresent

  /** What the two receipt writers fill in, apart from their fixed disclaimer. */
  datatype ToolReceipt = ToolReceipt(
    toolName: string, toolVersion: string,
    inputSchema: string, inputIdentity: string,
    policySchema: string, policyIdentity: string, runIdentity: string,
    outcome: Outcome, failureReason: FailureReason, failedStage: string, firstDiagnostic: string,
    checksAttempted: nat, checksCompleted: nat)

  /** What a valid receipt file says. */
  datatype Validation = Validation(outcome: Outcome, mark: Option<Fingerprint>)

  datatype Finding = Finding(
    diagnosticId: string, fileName: string, lineNumber: int, functionName: string,
    evidenceFrom: string, evidenceTo: string, message: string)

  datatype Node =
    | CallNode(enter: bool, callName: Option<string>)
    | ResourceNode(resourceClass: Option<string>)
    | OtherNode

  datatype EdgeKind =
    | CallParent | CallReturn | CallCausedEvent | ResourceLifetime | ProcessChildEvent | UnknownEdge

  /** What `p101_tool_analysis_status` returns. */
  type Status = n: int | 0 <= n <= 2

  /** A model with its analysis, and the report files the analysis renders. */
  datatype Analysis = Analysis(
    findings: seq<Finding>, nodes: seq<Node>, edges: seq<EdgeKind>,
    status: Status, modelJson: string, bundle: map<string, string>)

  datatype Library = Library(
    fingerprint: string -> Option<Fingerprint>,
    printReceipt: (ToolReceipt, Fingerprint) -> string,
    readReceipt: string -> Option<Validation>,
    analyze: (string, string, string) -> Option<Analysis>,
    matches: (string, string) -> bool,
    eventSchema: string, logVersion: nat)
  {
    /** The schema name and log version are ordinary one-line text. */
    predicate PlainConstants() {
      Printable(eventSchema) && |eventSchema| <= 128 && logVersion < UINT_LIMIT
    }
  }
}
