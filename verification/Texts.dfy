/** The written files line by line, in the order of the file. */
module Texts {
  import opened Wrappers
  import opened CText
  import opened Files
  import opened Artifacts
  import opened Library
  import opened Evidence
  import opened CaptureReceipt
  import opened CaptureRun
  import opened AnalyzeRun
  import ArgumentVectors

  /** The line for one file of a receipt. */
  function Recorded(lib: Library, dir: Snapshot, role: string, name: string): (text: string) {
    match FilePrint(lib, dir, name)
    case None => ""
    case Some(mark) => Line(Entry(role, mark))
  }

  /** A receipt begins with ten lines about the run, and the status. */
  lemma ReceiptBegins(lib: Library, runId: string, status: WaitStatus, dir: Snapshot)
    requires AllPrinted(lib, dir, CaptureTable())
    ensures var lines := ReceiptLines(lib, runId, status, dir);
      && |lines| > 11 && lines[10] == StatusLine(status)
      && lines[0] == "inspect-capture receipt\n" && lines[1] == "schema=p101-run-receipt-v1" + "\n"
      && lines[2] == "run_id=" + (runId + "\n") && lines[3] == "event_schema=" + (lib.eventSchema + "\n")
      && lines[4] == "event_log_version=" + (Numeral(lib.logVersion, 10) + "\n")
  {
    hide FilePrint;
    hide RecordLines;
    hide Numeral;
    hide StatusLine;
    hide Disclaimer;
  }

  /** It goes on with the seven artifacts, and ends with the disclaimer. */
  lemma ReceiptRecords(lib: Library, runId: string, status: WaitStatus, dir: Snapshot)
    requires AllPrinted(lib, dir, CaptureTable())
    ensures ReceiptLines(lib, runId, status, dir)[11..] == [
      Recorded(lib, dir, "manifest", "manifest.txt"), Recorded(lib, dir, "command", "command.txt"),
      Recorded(lib, dir, "stdout", "stdout.txt"), Recorded(lib, dir, "stderr", "stderr.txt"),
      Recorded(lib, dir, "resources", "resources.log"), Recorded(lib, dir, "calls", "calls.log"),
      Recorded(lib, dir, "summary", "summary.txt")] + [Disclaimer()]
  {
    hide FilePrint;
    hide Line;
    hide StatusLine;
    hide Disclaimer;
    var table := CaptureTable();
    var records := RecordLines(lib, dir, table);
    assert forall i :: 0 <= i < 7 ==> records[i] == RecordLine(lib, dir, table[i]);
    AfterPreamble(lib, runId, status, records);
  }

  lemma AfterPreamble(lib: Library, runId: string, status: WaitStatus, records: seq<string>)
    ensures (Preamble(lib, runId) + [StatusLine(status)] + records + [Disclaimer()])[11..] == records + [Disclaimer()]
  {
    hide StatusLine;
    hide Disclaimer;
  }

  /** What a status line says. */
  lemma StatusByName(code: ExitByte, n: I64)
    ensures StatusLine(Exited(code)) == "status=command\texit=" + (DecimalInt(code) + "\n")
    ensures StatusLine(Signalled(n)) == "status=command\tsignal=" + (DecimalInt(n) + "\n")
    ensures StatusLine(Raw(n)) == "status=command\traw=" + (DecimalInt(n) + "\n")
  {
    hide DecimalInt;
  }

  /** A manifest after its head, time and host: where everything is, what was logged, and the command. */
  lemma ManifestByLine(path: string, arguments: ArgumentVectors.Arguments)
    requires arguments.command != []
    ensures var texts := ManifestTail(path, arguments);
      && |texts| >= 6 && texts[0] == "report_dir=" + (path + "\n")
      && (texts[1] == "call_arguments=" + ("enabled" + "\n") <==> arguments.logArguments)
      && (texts[1] == "call_arguments=" + ("redacted" + "\n") <==> !arguments.logArguments)
      && (texts[2] == "call_results=" + ("enabled" + "\n") <==> arguments.logResults)
      && (texts[2] == "call_results=" + ("redacted" + "\n") <==> !arguments.logResults)
      && texts[3] == "resource_log=" + (path + "/resources.log" + "\n") && texts[4] == "call_log=" + (path + "/calls.log" + "\n")
      && texts[5] == "command=" && Flatten(texts[6..]) == CommandLine(arguments.command)
  {
    hide CommandTexts;
    CommandIsLine(arguments.command);
    hide CommandLine;
    hide Flatten;
    var texts := ManifestTail(path, arguments);
    assert texts[6..] == CommandTexts(arguments.command);
    LoggingTells("call_arguments=");
    LoggingTells("call_results=");
  }

  lemma LoggingTells(prefix: string)
    ensures prefix + ("enabled" + "\n") != prefix + ("redacted" + "\n")
  {
    assert |prefix + ("enabled" + "\n")| != |prefix + ("redacted" + "\n")|;
  }

  /** The head of a manifest. */
  lemma HeadByLine(lib: Library, runId: string)
    ensures var texts := ManifestHead(lib, runId);
      && texts[0] == "inspect-capture manifest" + "\n" && texts[1] == "schema=inspect-capture-manifest-v2" + "\n"
      && texts[2] == "run_id=" + (runId + "\n") && texts[3] == "event_schema=" + (lib.eventSchema + "\n")
      && texts[4] == "event_log_version=" + (Numeral(lib.logVersion, 10) + "\n")
  {
    hide Numeral;
  }

  /** The time and the host of a manifest. */
  lemma OptionsByLine(seconds: I64, host: Host)
    ensures TimeTexts(Some(seconds)) == ["generated_at_unix=" + (DecimalInt(seconds) + "\n")] && TimeTexts(None) == []
    ensures HostTexts(None) == []
    ensures HostTexts(Some(host)) == ["host_sysname=" + (host.sysname + "\n"), "host_release=" + (host.release + "\n"),
      "host_machine=" + (host.machine + "\n")]
  {
    hide DecimalInt;
  }

  /** The summary of a capture names the program, the directory and how the command ended. */
  lemma SummaryByLine(path: string, command: seq<string>, code: ExitByte, n: I64)
    requires command != []
    ensures SummaryTexts(path, command, Exited(code))[5] == "command: exit=" + DecimalInt(code) + "\n"
    ensures SummaryTexts(path, command, Signalled(n))[5] == "command: signal=" + DecimalInt(n) + "\n"
    ensures SummaryTexts(path, command, Raw(n))[5] == "command: status=" + DecimalInt(n) + "\n"
    ensures forall status :: SummaryTexts(path, command, status)[2] == "command: " + command[0] + "\n"
    ensures forall status :: SummaryTexts(path, command, status)[3] == "report_dir: " + path + "\n\n"
  {
    hide DecimalInt;
  }

  /** What comes before the verdict of a summary. */
  function SummaryFront(capture: string, findings: nat): (text: string) {
    "# p101 replay analysis\n\n" + "Capture: `" + capture + "`\n\n"
    + "Capture verification: **VERIFIED**\n\n" + "Findings: " + Numeral(findings, 10) + "\n\n" + "Overall result: **"
  }

  lemma SummaryParts(capture: string, findings: nat, status: Status) returns (back: string)
    ensures SummaryText(capture, findings, status)
      == SummaryFront(capture, findings) + (if status == 0 then "CLEAN" else "FINDINGS") + back
  {
    hide Numeral;
    back := "**\n\n" + "This report is bounded by the captured p101 wrapper events. "
      + "It cannot see direct libc calls, third-party internals, or events that were never emitted.\n";
  }

  /** The summary of an analysis says so exactly when the analysis is clean. */
  lemma SummaryTells(capture: string, findings: nat, status: Status)
    ensures var text, front := SummaryText(capture, findings, status), SummaryFront(capture, findings);
      (front + "CLEAN" <= text <==> status == 0) && (front + "FINDINGS" <= text <==> status != 0)
  {
    var back := SummaryParts(capture, findings, status);
    hide SummaryText;
    hide SummaryFront;
    Verdict(SummaryFront(capture, findings), if status == 0 then "CLEAN" else "FINDINGS", back, "CLEAN");
    Verdict(SummaryFront(capture, findings), if status == 0 then "CLEAN" else "FINDINGS", back, "FINDINGS");
    assert "CLEAN"[0] == 'C' && "FINDINGS"[0] == 'F';
  }

  lemma Verdict(front: string, word: string, back: string, other: string)
    requires word != "" && other != "" && (word == other || word[0] != other[0])
    ensures front + other <= front + word + back <==> word == other
  {
    var text := front + word + back;
    assert text[|front|] == word[0] && (front + other)[|front|] == other[0];
  }
}
